/** Input sanitising for the text fields that take coordinates: only the
    ASCII digits and the comma survive. */
module Sanitise {

  /** The characters the filter keeps: `0` to `9` and `,`. */
  predicate IsKept(ch: char) {
    ('0' <= ch <= '9') || ch == ','
  }

  predicate AllKept(s: string) {
    forall i :: 0 <= i < |s| ==> IsKept(s[i])
  }

  /** `clean_string`: every character outside `0`-`9` and `,` is deleted. */
  function CleanString(s: string): (r: string)
    ensures AllKept(r)
    ensures |r| <= |s|
  {
    if |s| == 0 then []
    else
      var rest := CleanString(s[1..]);
      if IsKept(s[0]) then [s[0]] + rest else rest
  }

  /** Every digit and comma survives as often as it occurs, and nothing
      else survives. */
  lemma {:induction false} CleanCounts(s: string)
    ensures forall ch :: multiset(CleanString(s))[ch] == if IsKept(ch) then multiset(s)[ch] else 0
    ensures forall ch :: ch in CleanString(s) <==> ch in s && IsKept(ch)
  {
    if |s| > 0 {
      CleanCounts(s[1..]);
      assert s == [s[0]] + s[1..];
      assert multiset(s) == multiset{s[0]} + multiset(s[1..]);
    }
    forall ch ensures ch in CleanString(s) <==> ch in s && IsKept(ch) {
      assert ch in CleanString(s) <==> ch in multiset(CleanString(s));
      assert ch in s <==> ch in multiset(s);
    }
  }

  /** `a` can be obtained from `b` by deleting characters. */
  predicate IsSubsequence(a: string, b: string)
    decreases |b|
  {
    if |a| == 0 then true
    else if |b| == 0 then false
    else if a[0] == b[0] then IsSubsequence(a[1..], b[1..])
    else IsSubsequence(a, b[1..])
  }

  /** The kept characters stay in their original order. */
  lemma {:induction false} CleanIsSubsequence(s: string)
    ensures IsSubsequence(CleanString(s), s)
  {
    if |s| > 0 {
      CleanIsSubsequence(s[1..]);
      var rest := CleanString(s[1..]);
      if IsKept(s[0]) {
        assert CleanString(s)[1..] == rest;
      }
    }
  }

  lemma TailKept(s: string)
    requires |s| > 0
    ensures AllKept(s) <==> IsKept(s[0]) && AllKept(s[1..])
  {
    assert forall i :: 0 <= i < |s| - 1 ==> s[1..][i] == s[i + 1];
    if IsKept(s[0]) && AllKept(s[1..]) {
      forall i | 0 < i < |s| ensures IsKept(s[i]) {
        assert s[i] == s[1..][i - 1];
      }
    }
  }

  /** Text made only of digits and commas passes unchanged. */
  lemma {:induction false} CleanKeepsClean(s: string)
    requires AllKept(s)
    ensures CleanString(s) == s
  {
    if |s| > 0 {
      TailKept(s);
      CleanKeepsClean(s[1..]);
      assert s == [s[0]] + s[1..];
    }
  }

  /** Text holding any other character comes out strictly shorter. */
  lemma {:induction false} CleanDropsUnkept(s: string)
    requires !AllKept(s)
    ensures |CleanString(s)| < |s|
  {
    TailKept(s);
    if IsKept(s[0]) {
      CleanDropsUnkept(s[1..]);
    }
  }

  /** The filter is the identity exactly on text made only of digits and
      commas. */
  lemma {:induction false} CleanIdentity(s: string)
    ensures CleanString(s) == s <==> AllKept(s)
  {
    if AllKept(s) {
      CleanKeepsClean(s);
    } else {
      CleanDropsUnkept(s);
    }
  }

  /** Cleaning twice is cleaning once. */
  lemma {:induction false} CleanIdempotent(s: string)
    ensures CleanString(CleanString(s)) == CleanString(s)
  {
    CleanIdentity(CleanString(s));
  }

  /** Cleaning works character by character: it distributes over
      concatenation. */
  lemma {:induction false} CleanConcat(s: string, t: string)
    ensures CleanString(s + t) == CleanString(s) + CleanString(t)
  {
    if |s| == 0 {
      assert s + t == t;
    } else {
      var st := s + t;
      assert st[0] == s[0] && st[1..] == s[1..] + t;
      CleanConcat(s[1..], t);
      if IsKept(s[0]) {
        calc {
          CleanString(st);
          [s[0]] + CleanString(s[1..] + t);
          [s[0]] + (CleanString(s[1..]) + CleanString(t));
          ([s[0]] + CleanString(s[1..])) + CleanString(t);
        }
      }
    }
  }
}
