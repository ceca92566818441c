/** Fragment metadata: flag bits, sizes, and the BIGINT columns that hold them. */
module Fragments {
  import opened ByteStrings
  import opened Outcomes

  type U32 = n: int | 0 <= n < 0x1_0000_0000
  type U64 = n: int | 0 <= n < 0x1_0000_0000_0000_0000
  type I64 = n: int | -0x8000_0000_0000_0000 <= n < 0x8000_0000_0000_0000

  type Hash(==, !new)

  type OtherBits = n: int | 0 <= n < 0x2000_0000

  /** The u32 flag word: the three bits the store looks at, and the other 29 as they are.
      Which position each bit has is a library detail; only that they are distinct is used. */
  datatype Flags = Flags(obliterating: bool, obliterated: bool, fragmented: bool, others: OtherBits)

  datatype Fragment = Fragment(flags: Flags, sizePayload: U32, sizeContent: U64)

  const TOMBSTONE := Fragment(Flags(false, true, false, 0), 0, 0)

  /** No bit of the PayloadObliteration mask is set. */
  predicate Live(f: Fragment) {
    !f.flags.obliterating && !f.flags.obliterated
  }

  /** The row an obliterator writes to take the lock on a fragment. */
  function Marked(f: Fragment): Fragment {
    f.(flags := f.flags.(obliterating := true))
  }

  function Word(f: Flags): U32 {
    8 * f.others + (if f.obliterating then 4 else 0) + (if f.obliterated then 2 else 0) +
      (if f.fragmented then 1 else 0)
  }

  function FromWord(w: U32): Flags {
    Flags(w / 4 % 2 == 1, w / 2 % 2 == 1, w % 2 == 1, w / 8)
  }

  /** One row of the metadata table, without its key. */
  datatype Columns = Columns(flags: I64, sizePayload: I64, sizeContent: I64)

  /** `as i64` on each field: widening for u32, reinterpretation for u64. */
  function ToColumns(f: Fragment): Columns {
    Columns(
      Word(f.flags),
      f.sizePayload,
      if f.sizeContent < 0x8000_0000_0000_0000 then f.sizeContent else f.sizeContent - 0x1_0000_0000_0000_0000)
  }

  /** `as u32` and `as u64` on each column: truncation and reinterpretation. */
  function FromColumns(c: Columns): Fragment {
    Fragment(
      FromWord(c.flags % 0x1_0000_0000),
      c.sizePayload % 0x1_0000_0000,
      if c.sizeContent < 0 then c.sizeContent + 0x1_0000_0000_0000_0000 else c.sizeContent)
  }

  lemma WordRoundTrip(f: Flags)
    ensures FromWord(Word(f)) == f
  {
  }

  /** Every fragment survives the two casts, including content sizes above the signed range. */
  lemma ColumnsRoundTrip(f: Fragment)
    ensures FromColumns(ToColumns(f)) == f
  {
    WordRoundTrip(f.flags);
  }

  /** A column-wise comparison matches exactly when the fragments are equal. */
  lemma ColumnsInjective(f: Fragment, g: Fragment)
    ensures ToColumns(f) == ToColumns(g) <==> f == g
  {
    ColumnsRoundTrip(f);
    ColumnsRoundTrip(g);
  }

  // size_of::<Fragment>(): two u32 and one u64.
  const HEADER := 16

  /** The payload in an S3 object: a migrated object may carry a fragment header in front. */
  function ReadPayload(force: bool, stored: Bytes, f: Fragment): (payload: Option<Bytes>)
    ensures payload.Some? ==> |payload.value| == f.sizePayload
    ensures |stored| == f.sizePayload ==> payload == Some(stored)
    ensures |stored| == f.sizePayload + HEADER && force ==> payload.Some? && stored == stored[..HEADER] + payload.value
    ensures payload.None? <==> |stored| != f.sizePayload && !(force && |stored| == f.sizePayload + HEADER)
  {
    var buffer :=
      if |stored| > f.sizePayload && |stored| - f.sizePayload == HEADER && force
      then stored[HEADER..] else stored;
    if |buffer| == f.sizePayload then Some(buffer) else None
  }
}
