/** java.lang.String.trim, the one library routine the task store relies on for input cleaning. */
module JavaStrings {

  /** trim treats every char whose code is at most U+0020 (the space) as blank. */
  predicate IsBlank(c: char) {
    c <= ' '
  }

  predicate AllBlank(s: string) {
    forall k :: 0 <= k < |s| ==> IsBlank(s[k])
  }

  /** A string that trim leaves as it is: empty, or with a non-blank first and last char. */
  predicate IsTrimmed(s: string) {
    s == [] || (!IsBlank(s[0]) && !IsBlank(s[|s| - 1]))
  }

  /** The first index at or after `st` that holds a non-blank char, or |s| (trim's first loop). */
  function SkipLeading(s: string, st: nat): (r: nat)
    requires st <= |s|
    ensures st <= r <= |s|
    ensures forall k :: st <= k < r ==> IsBlank(s[k])
    ensures r < |s| ==> !IsBlank(s[r])
    decreases |s| - st
  {
    if st < |s| && IsBlank(s[st]) then SkipLeading(s, st + 1) else st
  }

  /** The end of `s` after dropping blank chars from position `len` backwards, never below `st`
      (trim's second loop). */
  function SkipTrailing(s: string, st: nat, len: nat): (r: nat)
    requires st <= len <= |s|
    ensures st <= r <= len
    ensures forall k :: r <= k < len ==> IsBlank(s[k])
    ensures st < r ==> !IsBlank(s[r - 1])
    decreases len
  {
    if st < len && IsBlank(s[len - 1]) then SkipTrailing(s, st, len - 1) else len
  }

  /** `s` without its leading and trailing blank chars. */
  function Trim(s: string): (r: string)
    ensures |r| <= |s|
    ensures IsTrimmed(r)
    ensures r == [] <==> AllBlank(s)
    ensures var st := SkipLeading(s, 0);
      st + |r| <= |s| && r == s[st..st + |r|] && AllBlank(s[..st]) && AllBlank(s[st + |r|..])
  {
    var st := SkipLeading(s, 0);
    var len := SkipTrailing(s, st, |s|);
    assert AllBlank(s) ==> st == |s|;
    assert st == len ==> st == |s|;
    s[st..len]
  }

  /** Trim yields exactly the middle part of any split of a string into a blank prefix,
      a trimmed middle and a blank suffix: the reference definition of trim. */
  lemma TrimUnique(p: string, m: string, q: string)
    requires AllBlank(p) && IsTrimmed(m) && AllBlank(q)
    ensures Trim(p + m + q) == m
  {
    var s := p + m + q;
    if m == [] {
      assert s == p + q;
      forall k | 0 <= k < |s| ensures IsBlank(s[k]) {
        if k < |p| { assert s[k] == p[k]; } else { assert s[k] == q[k - |p|]; }
      }
    } else {
      var st := SkipLeading(s, 0);
      assert s[|p|] == m[0];
      assert forall k :: 0 <= k < |p| ==> s[k] == p[k];
      assert st == |p|;
      var len := SkipTrailing(s, st, |s|);
      var e := |p| + |m|;
      assert s[e - 1] == m[|m| - 1];
      assert forall k :: e <= k < |s| ==> s[k] == q[k - e];
      assert len == e;
      assert s[st..len] == m;
    }
  }

  /** Applying trim twice gives what applying it once gives. */
  lemma TrimIdempotent(s: string)
    ensures Trim(Trim(s)) == Trim(s)
  {
  }
}
