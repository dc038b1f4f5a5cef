/** Replacing text in place (src/files/file_manager.cpp, ReplaceText_). */
module ReplaceText {
  import opened Wrappers

  predicate OccursAt(s: string, what: string, pos: nat) {
    pos + |what| <= |s| && s[pos..pos + |what|] == what
  }

  /** std::string::find: the first occurrence at or after a position. */
  method Find(s: string, what: string, pos: nat) returns (found: Option<nat>)
    requires pos <= |s|
    ensures match found
            case Some(k) => pos <= k && OccursAt(s, what, k) && forall j :: pos <= j < k ==> !OccursAt(s, what, j)
            case None => forall j :: pos <= j <= |s| ==> !OccursAt(s, what, j)
  {
    var k := pos;
    while k + |what| <= |s|
      invariant pos <= k <= |s| + 1
      invariant forall j :: pos <= j < k ==> !OccursAt(s, what, j)
    {
      if s[k..k + |what|] == what { return Some(k); }
      k := k + 1;
    }
    found := None;
  }

  /** The replacement of the leftmost occurrences that do not overlap, reading from left to right. */
  function Replaced(s: string, what: string, with: string): string
    requires what != ""
    decreases |s|
  {
    if OccursAt(s, what, 0) then with + Replaced(s[|what|..], what, with)
    else if s == "" then ""
    else [s[0]] + Replaced(s[1..], what, with)
  }

  function Count(s: string, what: string): nat
    requires what != ""
    decreases |s|
  {
    if OccursAt(s, what, 0) then 1 + Count(s[|what|..], what)
    else if s == "" then 0
    else Count(s[1..], what)
  }

  lemma OccursInRest(s: string, what: string, pos: nat, j: nat)
    requires pos + j <= |s|
    ensures OccursAt(s[pos..], what, j) <==> OccursAt(s, what, pos + j)
  {
    if pos + j + |what| <= |s| {
      assert s[pos..][j..j + |what|] == s[pos + j..pos + j + |what|];
    }
  }

  lemma SkipOne(s: string, what: string, with: string, pos: nat)
    requires what != "" && pos < |s| && !OccursAt(s, what, pos)
    ensures Replaced(s[pos..], what, with) == [s[pos]] + Replaced(s[pos + 1..], what, with)
    ensures Count(s[pos..], what) == Count(s[pos + 1..], what)
  {
    OccursInRest(s, what, pos, 0);
    assert s[pos..][1..] == s[pos + 1..];
  }

  /** Up to the next occurrence the text stays as it is. */
  lemma {:induction false} SkipTo(s: string, what: string, with: string, pos: nat, k: nat)
    requires what != "" && pos <= k <= |s|
    requires forall j :: pos <= j < k ==> !OccursAt(s, what, j)
    ensures Replaced(s[pos..], what, with) == s[pos..k] + Replaced(s[k..], what, with)
    ensures Count(s[pos..], what) == Count(s[k..], what)
    decreases k - pos
  {
    if pos < k {
      SkipOne(s, what, with, pos);
      SkipTo(s, what, with, pos + 1, k);
      Prepend(s[pos], s[pos + 1..k], Replaced(s[k..], what, with));
      assert s[pos..k] == [s[pos]] + s[pos + 1..k];
    }
  }

  lemma Prepend(c: char, middle: string, rest: string)
    ensures [c] + (middle + rest) == ([c] + middle) + rest
  {
  }

  lemma NoneLeft(s: string, what: string, with: string, pos: nat)
    requires what != "" && pos <= |s| && forall j :: pos <= j <= |s| ==> !OccursAt(s, what, j)
    ensures Replaced(s[pos..], what, with) == s[pos..] && Count(s[pos..], what) == 0
  {
    SkipTo(s, what, with, pos, |s|);
    assert s[|s|..] == "" && s[pos..|s|] == s[pos..];
    assert !OccursAt("", what, 0);
  }

  lemma AtOccurrence(s: string, what: string, with: string, k: nat)
    requires what != "" && OccursAt(s, what, k)
    ensures Replaced(s[k..], what, with) == with + Replaced(s[k + |what|..], what, with)
    ensures Count(s[k..], what) == 1 + Count(s[k + |what|..], what)
  {
    OccursInRest(s, what, k, 0);
    assert s[k..][|what|..] == s[k + |what|..];
  }

  lemma Regroup(s: string, with: string, rest: string, pos: nat, k: nat)
    requires pos <= k <= |s|
    ensures (s[..k] + with) + rest == s[..pos] + (s[pos..k] + (with + rest))
  {
    assert s[..k] == s[..pos] + s[pos..k];
  }

  lemma ReplaceStep(s: string, what: string, with: string, pos: nat, k: nat)
    requires what != "" && pos <= k && OccursAt(s, what, k) && forall j :: pos <= j < k ==> !OccursAt(s, what, j)
    ensures var t := s[..k] + with + s[k + |what|..];
            && t[..k + |with|] + Replaced(t[k + |with|..], what, with) == s[..pos] + Replaced(s[pos..], what, with)
            && 1 + Count(t[k + |with|..], what) == Count(s[pos..], what)
  {
    var tail := s[k + |what|..];
    var t := s[..k] + with + tail;
    SkipTo(s, what, with, pos, k);
    AtOccurrence(s, what, with, k);
    Regroup(s, with, Replaced(tail, what, with), pos, k);
    assert t[..k + |with|] == s[..k] + with && t[k + |with|..] == tail;
  }

  /** The loop stands at a position: what is before it stays, and what follows is still to be replaced. */
  ghost predicate Reached(text: string, what: string, with: string, inout: string, pos: nat, count: nat)
    requires what != ""
  {
    && pos <= |inout|
    && inout[..pos] + Replaced(inout[pos..], what, with) == Replaced(text, what, with)
    && count + Count(inout[pos..], what) == Count(text, what)
  }

  lemma ReachedStart(text: string, what: string, with: string)
    requires what != ""
    ensures Reached(text, what, with, text, 0, 0)
  {
    assert text[0..] == text && text[..0] == "";
  }

  lemma ReachedNext(text: string, what: string, with: string, s: string, pos: nat, count: nat, k: nat)
    requires what != "" && Reached(text, what, with, s, pos, count)
    requires pos <= k && OccursAt(s, what, k) && forall j :: pos <= j < k ==> !OccursAt(s, what, j)
    ensures Reached(text, what, with, s[..k] + with + s[k + |what|..], k + |with|, count + 1)
  {
    ReplaceStep(s, what, with, pos, k);
  }

  lemma ReachedEnd(text: string, what: string, with: string, s: string, pos: nat, count: nat)
    requires what != "" && Reached(text, what, with, s, pos, count)
    requires forall j :: pos <= j <= |s| ==> !OccursAt(s, what, j)
    ensures s == Replaced(text, what, with) && count == Count(text, what)
  {
    NoneLeft(s, what, with, pos);
    assert s[..pos] + s[pos..] == s;
  }

  /** The loop on the text itself; it ends also when `with` contains `what`. */
  method Replace(text: string, what: string, with: string) returns (inout: string, count: nat)
    requires what != ""
    ensures inout == Replaced(text, what, with) && count == Count(text, what)
  {
    inout, count := text, 0;
    var pos: nat := 0;
    ReachedStart(text, what, with);
    while true
      invariant pos <= |inout| && Reached(text, what, with, inout, pos, count)
      decreases |inout| - pos
    {
      var found := Find(inout, what, pos);
      if found.None? {
        ReachedEnd(text, what, with, inout, pos, count);
        return;
      }
      ReachedNext(text, what, with, inout, pos, count, found.value);
      inout := inout[..found.value] + with + inout[found.value + |what|..];
      pos := found.value + |with|;
      count := count + 1;
    }
  }

  // ----- What replacing means -----

  lemma Distribute(n: int, d: int)
    ensures (1 + n) * d == d + n * d
  {
  }

  lemma {:induction false} ReplacedLength(s: string, what: string, with: string)
    requires what != ""
    ensures |Replaced(s, what, with)| == |s| + Count(s, what) * (|with| - |what|)
    decreases |s|
  {
    if OccursAt(s, what, 0) {
      var rest := s[|what|..];
      ReplacedLength(rest, what, with);
      Distribute(Count(rest, what), |with| - |what|);
    } else if s != "" {
      ReplacedLength(s[1..], what, with);
    }
  }

  /** One character is replaced wherever it stands. */
  lemma {:induction false} OneCharacter(s: string, c: char, with: string)
    ensures c in Replaced(s, [c], with) <==> c in s && c in with
    ensures forall x :: x != c && x in s ==> x in Replaced(s, [c], with)
    decreases |s|
  {
    if s != "" {
      OneCharacter(s[1..], c, with);
      assert s == [s[0]] + s[1..];
      assert OccursAt(s, [c], 0) <==> s[0] == c;
    }
  }

  /** Replacing one character by another and back restores the text exactly when the other one was not in it. */
  lemma {:induction false} ReplaceBack(s: string, c: char, d: char)
    ensures Replaced(Replaced(s, [c], [d]), [d], [c]) == s <==> d !in s || c == d
    decreases |s|
  {
    if s != "" {
      ReplaceBack(s[1..], c, d);
      var rest := Replaced(s[1..], [c], [d]);
      assert s == [s[0]] + s[1..];
      assert OccursAt(s, [c], 0) <==> s[0] == c;
      var first := if s[0] == c then d else s[0];
      var t := Replaced(s, [c], [d]);
      assert t == [first] + rest && t[1..] == rest;
      assert OccursAt(t, [d], 0) <==> first == d;
      var back := if first == d then c else first;
      assert Replaced(t, [d], [c]) == [back] + Replaced(rest, [d], [c]);
      assert ([back] + Replaced(rest, [d], [c]))[1..] == Replaced(rest, [d], [c]);
    }
  }
}
