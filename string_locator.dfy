/**
 * The string locator (`get_string_addr`, src/searcher.rs): the address of
 * the first place in a data section where the text appears followed by a
 * NUL byte. The library substring search it relies on is specified here
 * by its first-match behaviour and carried out by a plain left-to-right
 * search.
 */
module StringLocator {
  import opened Wrappers
  import opened Bytes

  /** The text with its terminating NUL: `target.as_bytes()` followed by 0x00. */
  function NulTerminated(text: seq<byte>): (pat: seq<byte>)
    ensures |pat| == |text| + 1 && pat[..|text|] == text && pat[|text|] == 0
  {
    text + [0]
  }

  /** `pat` occurs in `data` starting at byte `p`. */
  predicate OccursAt(data: seq<byte>, pat: seq<byte>, p: nat)
  {
    p + |pat| <= |data| && data[p..p + |pat|] == pat
  }

  /** The first occurrence of `pat` in `data` at or after `from`. */
  function FirstFrom(data: seq<byte>, pat: seq<byte>, from: nat): (r: Option<nat>)
    decreases |data| - from
    ensures r.Some? ==> from <= r.value && OccursAt(data, pat, r.value)
    ensures r.Some? ==> forall q: nat :: from <= q < r.value ==> !OccursAt(data, pat, q)
    ensures r.None? ==> forall q: nat :: from <= q ==> !OccursAt(data, pat, q)
  {
    if from + |pat| > |data| then None
    else if data[from..from + |pat|] == pat then Some(from)
    else FirstFrom(data, pat, from + 1)
  }

  /** The first occurrence of `pat` in `data`. */
  function First(data: seq<byte>, pat: seq<byte>): (r: Option<nat>)
    ensures r.Some? <==> exists p: nat :: OccursAt(data, pat, p)
    ensures r.Some? ==> OccursAt(data, pat, r.value) && forall q: nat :: q < r.value ==> !OccursAt(data, pat, q)
  {
    FirstFrom(data, pat, 0)
  }

  /** What `get_string_addr` returns: `Some(base_va + p)` for the first NUL-terminated occurrence p. */
  function StringAddr(data: ByteSlice, text: seq<byte>, baseVa: bv64): Option<bv64>
  {
    match First(data, NulTerminated(text))
    case Some(p) => Some(AddressAt(baseVa, p))
    case None => None
  }

  /** `get_string_addr`: build the NUL-terminated pattern, then return at its first match. */
  method GetStringAddr(data: ByteSlice, text: seq<byte>, baseVa: bv64) returns (r: Option<bv64>)
    ensures r == StringAddr(data, text, baseVa)
  {
    var pat := text;
    pat := pat + [0];
    var pos := 0;
    while pos + |pat| <= |data|
      invariant pat == NulTerminated(text)
      invariant FirstFrom(data, pat, pos) == First(data, pat)
      decreases |data| - pos
    {
      if data[pos..pos + |pat|] == pat {
        return Some(AddressAt(baseVa, pos));
      }
      pos := pos + 1;
    }
    return None;
  }

  /** The text followed by a 0 byte starts at byte p of `data`. */
  predicate TerminatedAt(data: seq<byte>, text: seq<byte>, p: nat)
  {
    p + |text| < |data| && data[p..p + |text|] == text && data[p + |text|] == 0
  }

  /**
   * The locator answers exactly when the text occurs NUL-terminated, and
   * then with the address of the first such occurrence.
   */
  lemma StringAddrIsFirstOccurrence(data: ByteSlice, text: seq<byte>, baseVa: bv64)
    ensures StringAddr(data, text, baseVa).Some? <==> exists p: nat :: TerminatedAt(data, text, p)
    ensures StringAddr(data, text, baseVa).Some? ==>
      exists p: nat :: TerminatedAt(data, text, p) && StringAddr(data, text, baseVa).value == AddressAt(baseVa, p)
                    && forall q: nat :: q < p ==> !TerminatedAt(data, text, q)
  {
    forall q: nat
      ensures OccursAt(data, NulTerminated(text), q) <==> TerminatedAt(data, text, q)
    {
      if q + |text| < |data| {
        OccursAtNulTerminated(data, text, q);
      }
    }
  }

  /** An occurrence of the NUL-terminated text is the text followed by a 0 byte. */
  lemma OccursAtNulTerminated(data: seq<byte>, text: seq<byte>, q: nat)
    requires q + |text| < |data|
    ensures OccursAt(data, NulTerminated(text), q) <==> TerminatedAt(data, text, q)
  {
    var pat := NulTerminated(text);
    var window := data[q..q + |pat|];
    assert window[..|text|] == data[q..q + |text|];
    assert window[|text|] == data[q + |text|];
    if TerminatedAt(data, text, q) {
      assert window == pat;
    }
  }
}
