/** The byte-level scans of the parser: runs of allowed bytes, marker search, space trimming.
    Each scan is a function that specifies it and a method that performs it with a loop. */
module Scan {
  import opened XmlTypes
  import opened Classifier

  /** Passed as `stop` when a run has no terminating byte of its own. */
  const NO_STOP: int := -1

  /** The end of the run starting at pos of bytes that are allowed in text type t and differ
      from stop: the first index at which the text ends, stop occurs or a disallowed byte occurs. */
  function RunEnd(text: seq<byte>, pos: nat, tbl: Table, t: TextType, stop: int): (q: nat)
    requires pos <= |text|
    ensures pos <= q <= |text|
    ensures q < |text| ==> text[q] == stop || !Allowed(tbl, t, text[q])
    decreases |text| - pos
  {
    if pos == |text| || text[pos] == stop || !Allowed(tbl, t, text[pos]) then pos
    else RunEnd(text, pos + 1, tbl, t, stop)
  }

  /** Every byte of a run is allowed and is not the stop byte. */
  lemma {:induction false} RunEndBytes(text: seq<byte>, pos: nat, tbl: Table, t: TextType, stop: int)
    requires pos <= |text|
    ensures var q := RunEnd(text, pos, tbl, t, stop);
      forall k :: pos <= k < q ==> text[k] != stop && Allowed(tbl, t, text[k])
    decreases |text| - pos
  {
    if pos < |text| && text[pos] != stop && Allowed(tbl, t, text[pos]) {
      RunEndBytes(text, pos + 1, tbl, t, stop);
    }
  }

  /** The two postconditions of RunEnd determine it. */
  lemma {:induction false} RunEndUnique(text: seq<byte>, pos: nat, tbl: Table, t: TextType, stop: int, q: nat)
    requires pos <= q <= |text|
    requires forall k :: pos <= k < q ==> text[k] != stop && Allowed(tbl, t, text[k])
    requires q < |text| ==> text[q] == stop || !Allowed(tbl, t, text[q])
    ensures RunEnd(text, pos, tbl, t, stop) == q
    decreases q - pos
  {
    if pos < q {
      RunEndUnique(text, pos + 1, tbl, t, stop, q);
    }
  }

  method ScanRun(text: seq<byte>, pos: nat, tbl: Table, t: TextType, stop: int) returns (q: nat)
    requires pos <= |text|
    ensures q == RunEnd(text, pos, tbl, t, stop)
  {
    q := pos;
    while q < |text| && text[q] != stop && Allowed(tbl, t, text[q])
      invariant pos <= q <= |text|
      invariant RunEnd(text, q, tbl, t, stop) == RunEnd(text, pos, tbl, t, stop)
      decreases |text| - q
    {
      q := q + 1;
    }
  }

  predicate MatchAt(text: seq<byte>, k: nat, m: seq<byte>) {
    k + |m| <= |text| && text[k..k + |m|] == m
  }

  /** A match of m at k puts m's bytes at k, k + 1, ... */
  lemma MatchAtByte(text: seq<byte>, k: nat, m: seq<byte>, j: nat)
    requires MatchAt(text, k, m) && j < |m|
    ensures k + j < |text| && text[k + j] == m[j]
  {
    assert text[k..k + |m|][j] == text[k + j];
  }

  /** The first occurrence of marker m at or after pos. */
  function Find(text: seq<byte>, pos: nat, m: seq<byte>): (r: Option<nat>)
    requires pos <= |text|
    ensures r.Some? ==> pos <= r.value && MatchAt(text, r.value, m)
    ensures r.Some? ==> forall k :: pos <= k < r.value ==> !MatchAt(text, k, m)
    ensures r.None? ==> forall k :: pos <= k <= |text| ==> !MatchAt(text, k, m)
    decreases |text| - pos
  {
    if pos + |m| > |text| then None
    else if text[pos..pos + |m|] == m then Some(pos)
    else Find(text, pos + 1, m)
  }

  method FindMarker(text: seq<byte>, pos: nat, m: seq<byte>) returns (r: Option<nat>)
    requires pos <= |text|
    ensures r == Find(text, pos, m)
  {
    var k := pos;
    while k + |m| <= |text| && text[k..k + |m|] != m
      invariant pos <= k <= |text|
      invariant Find(text, k, m) == Find(text, pos, m)
      decreases |text| - k
    {
      k := k + 1;
    }
    if k + |m| <= |text| {
      r := Some(k);
    } else {
      r := None;
    }
  }

  /** The first index of [lo, hi) that holds no space byte, or hi. */
  function TrimStart(text: seq<byte>, lo: nat, hi: nat, tbl: Table): (s: nat)
    requires lo <= hi <= |text|
    ensures lo <= s <= hi
    ensures forall k :: lo <= k < s ==> IsSpace(tbl, text[k])
    ensures s < hi ==> !IsSpace(tbl, text[s])
    decreases hi - lo
  {
    if lo < hi && IsSpace(tbl, text[lo]) then TrimStart(text, lo + 1, hi, tbl) else lo
  }

  /** One past the last index of [lo, hi) that holds no space byte, or lo. */
  function TrimEnd(text: seq<byte>, lo: nat, hi: nat, tbl: Table): (e: nat)
    requires lo <= hi <= |text|
    ensures lo <= e <= hi
    ensures forall k :: e <= k < hi ==> IsSpace(tbl, text[k])
    ensures lo < e ==> !IsSpace(tbl, text[e - 1])
    decreases hi - lo
  {
    if lo < hi && IsSpace(tbl, text[hi - 1]) then TrimEnd(text, lo, hi - 1, tbl) else hi
  }

  /** The text [lo, hi) without its leading and trailing space bytes. */
  function TrimSpan(text: seq<byte>, lo: nat, hi: nat, tbl: Table): (r: Span)
    requires lo <= hi <= |text|
    ensures lo <= r.start && r.End() <= hi
    ensures forall k :: lo <= k < r.start ==> IsSpace(tbl, text[k])
    ensures forall k :: r.End() <= k < hi ==> IsSpace(tbl, text[k])
    ensures r.length > 0 ==> !IsSpace(tbl, text[r.start]) && !IsSpace(tbl, text[r.End() - 1])
    ensures r.length == 0 ==> forall k :: lo <= k < hi ==> IsSpace(tbl, text[k])
  {
    var s := TrimStart(text, lo, hi, tbl);
    var e := TrimEnd(text, s, hi, tbl);
    Span(s, e - s)
  }

  /** Trimming a trimmed text changes nothing; only the two ends are ever removed. */
  lemma TrimIdempotent(text: seq<byte>, lo: nat, hi: nat, tbl: Table)
    requires lo <= hi <= |text|
    ensures var r := TrimSpan(text, lo, hi, tbl); TrimSpan(text, r.start, r.End(), tbl) == r
  {
    var r := TrimSpan(text, lo, hi, tbl);
    if r.length > 0 {
      assert TrimStart(text, r.start, r.End(), tbl) == r.start;
      assert TrimEnd(text, r.start, r.End(), tbl) == r.End();
    } else {
      assert TrimStart(text, r.start, r.End(), tbl) == r.start;
    }
  }

  method TrimRun(text: seq<byte>, lo: nat, hi: nat, tbl: Table) returns (r: Span)
    requires lo <= hi <= |text|
    ensures r == TrimSpan(text, lo, hi, tbl)
  {
    var s := lo;
    while s < hi && IsSpace(tbl, text[s])
      invariant lo <= s <= hi
      invariant TrimStart(text, s, hi, tbl) == TrimStart(text, lo, hi, tbl)
      decreases hi - s
    {
      s := s + 1;
    }
    var e := hi;
    while s < e && IsSpace(tbl, text[e - 1])
      invariant s <= e <= hi
      invariant TrimEnd(text, s, e, tbl) == TrimEnd(text, s, hi, tbl)
      decreases e - s
    {
      e := e - 1;
    }
    r := Span(s, e - s);
  }
}
