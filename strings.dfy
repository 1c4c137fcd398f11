/** The Ruby string and array operations that number_with_delimiter chains together. */
module Strings {

  /** String#reverse. */
  function Reverse<T>(s: seq<T>): (r: seq<T>)
    ensures |r| == |s|
    ensures forall i :: 0 <= i < |s| ==> r[i] == s[|s| - 1 - i]
  {
    if s == [] then [] else Reverse(s[1..]) + [s[0]]
  }

  lemma ReverseReverse<T>(s: seq<T>)
    ensures Reverse(Reverse(s)) == s
  {
  }

  lemma ReverseConcat<T>(a: seq<T>, b: seq<T>)
    ensures Reverse(a + b) == Reverse(b) + Reverse(a)
  {
    var l, r := Reverse(a + b), Reverse(b) + Reverse(a);
    assert |l| == |r|;
    forall i | 0 <= i < |l| ensures l[i] == r[i] {
      if i < |b| {
        assert r[i] == b[|b| - 1 - i];
      } else {
        assert r[i] == Reverse(a)[i - |b|];
      }
    }
  }

  /** Array#join: the parts in order, with sep between neighbours. */
  function Join(parts: seq<string>, sep: string): (r: string)
    ensures parts == [] ==> r == []
  {
    if parts == [] then []
    else if |parts| == 1 then parts[0]
    else parts[0] + sep + Join(parts[1..], sep)
  }

  /** A join starts with the first part and ends with the last. */
  lemma {:induction false} JoinEnds(parts: seq<string>, sep: string)
    requires parts != []
    ensures var r := Join(parts, sep); |parts[0]| <= |r| && r[..|parts[0]|] == parts[0]
    ensures var r, last := Join(parts, sep), parts[|parts| - 1]; |last| <= |r| && r[|r| - |last|..] == last
  {
    if |parts| > 1 {
      JoinEnds(parts[1..], sep);
      var tail := Join(parts[1..], sep);
      var last := parts[|parts| - 1];
      assert parts[1..][|parts[1..]| - 1] == last;
      assert Join(parts, sep) == parts[0] + sep + tail;
      assert (parts[0] + sep + tail)[..|parts[0]|] == parts[0];
      assert (parts[0] + sep + tail)[|parts[0] + sep + tail| - |last|..] == tail[|tail| - |last|..];
    }
  }

  /** Joining a head onto a non-empty list puts one separator after it. */
  lemma JoinCons(x: string, parts: seq<string>, sep: string)
    requires parts != []
    ensures Join([x] + parts, sep) == x + sep + Join(parts, sep)
  {
    assert ([x] + parts)[1..] == parts;
  }

  /**
   * chars.each_slice(k).map(&:join): consecutive pieces that concatenate back to
   * s, each of exactly k characters but the last, which has 1..k.
   */
  function Slices(s: string, k: nat): (parts: seq<string>)
    requires k > 0
    ensures s == [] <==> parts == []
    ensures Join(parts, "") == s
    ensures forall i :: 0 <= i < |parts| ==> 1 <= |parts[i]| <= k
    ensures forall i :: 0 <= i < |parts| - 1 ==> |parts[i]| == k
    decreases |s|
  {
    if s == [] then []
    else
      var n := if |s| < k then |s| else k;
      var rest := Slices(s[n..], k);
      SliceInFront(s[..n], rest, k);
      assert s[..n] + s[n..] == s;
      [s[..n]] + rest
  }

  /** Putting one slice of 1..k characters (k of them if more follow) in front keeps the slice shape and the concatenation. */
  lemma SliceInFront(x: string, rest: seq<string>, k: nat)
    requires 1 <= |x| <= k && (rest != [] ==> |x| == k)
    requires forall i :: 0 <= i < |rest| ==> 1 <= |rest[i]| <= k
    requires forall i :: 0 <= i < |rest| - 1 ==> |rest[i]| == k
    ensures Join([x] + rest, "") == x + Join(rest, "")
    ensures forall i :: 0 <= i < |rest| + 1 ==> 1 <= |([x] + rest)[i]| <= k
    ensures forall i :: 0 <= i < |rest| ==> |([x] + rest)[i]| == k
  {
    var parts := [x] + rest;
    if rest == [] {
      assert parts == [x];
      assert Join(parts, "") == x;
      assert x + Join(rest, "") == x + [];
    } else {
      JoinCons(x, rest, "");
    }
    forall i | 0 <= i < |rest| + 1 ensures 1 <= |parts[i]| <= k {
      if i > 0 { assert parts[i] == rest[i - 1]; }
    }
    forall i | 0 <= i < |rest| ensures |parts[i]| == k {
      if i > 0 { assert parts[i] == rest[i - 1]; }
    }
  }

  /** A string longer than k starts with a full slice of k characters. */
  lemma SlicesCons(s: string, k: nat)
    requires k > 0 && |s| > k
    ensures Slices(s, k) == [s[..k]] + Slices(s[k..], k)
  {
  }

  /** Ruby's rjust(width, c): pads s on the left with c up to width characters. */
  function RightJustify(s: string, width: nat, c: char): (r: string)
    ensures |r| == if |s| >= width then |s| else width
    ensures r[|r| - |s|..] == s
    ensures forall i :: 0 <= i < |r| - |s| ==> r[i] == c
  {
    if |s| >= width then s else seq(width - |s|, _ => c) + s
  }

  /** Padding an already justified string changes nothing. */
  lemma RightJustifyIdempotent(s: string, width: nat, c: char)
    ensures RightJustify(RightJustify(s, width, c), width, c) == RightJustify(s, width, c)
  {
  }
}
