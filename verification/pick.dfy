/**
 `aleatorio`: draw one pending id and splice it out of the array. The random index
 `Math.floor(Math.random() * text.length)` is an input `k`.
 */
module Pick {
  import opened Wrappers
  import opened Quizzes

  /** `Array.prototype.indexOf`: the first position holding `x`, or -1. */
  function IndexOf(s: seq<int>, x: int): (r: int)
    ensures -1 <= r < |s|
    ensures r >= 0 ==> s[r] == x && x !in s[..r]
    ensures r == -1 <==> x !in s
  {
    if s == [] then -1
    else if s[0] == x then 0
    else
      var r := IndexOf(s[1..], x);
      assert s == [s[0]] + s[1..];
      if r == -1 then -1
      else
        assert s[..r + 1] == [s[0]] + s[1..][..r];
        r + 1
  }

  /** `Array.prototype.splice(start, 1)`: a negative start counts from the end (clamped at 0), a
      start past the end removes nothing. */
  function Splice1(s: seq<int>, start: int): (r: seq<int>)
    ensures var p := if start < 0 then (if |s| + start < 0 then 0 else |s| + start) else start;
      && (p < |s| ==>
            && |r| == |s| - 1
            && (forall i :: 0 <= i < |r| ==> r[i] == s[if i < p then i else i + 1])
            && multiset(r) + multiset{s[p]} == multiset(s))
      && (p >= |s| ==> r == s)
  {
    var p := if start < 0 then (if |s| + start < 0 then 0 else |s| + start) else start;
    if p < |s| then
      CutOut(s, p);
      s[..p] + s[p + 1..]
    else s
  }

  /** Cutting position `p` out of `s` shifts the later elements down by one and takes exactly one
      copy of `s[p]` away. */
  lemma CutOut(s: seq<int>, p: nat)
    requires p < |s|
    ensures var r := s[..p] + s[p + 1..];
      && |r| == |s| - 1
      && (forall i :: 0 <= i < |r| ==> r[i] == s[if i < p then i else i + 1])
      && multiset(r) + multiset{s[p]} == multiset(s)
  {
    assert s == s[..p] + [s[p]] + s[p + 1..];
  }

  /** What `aleatorio` leaves behind: the drawn id (`undefined` is `None`) and the array after
      the splice. */
  datatype Picked = Picked(id: Option<int>, rest: seq<int>)

  /** `aleatorio(id, text)` with the random index fixed to `k`. `text[k]` is `undefined` when `k`
      is past the end; `indexOf(undefined)` is then -1 and `splice(-1, 1)` drops the last id. */
  function Aleatorio(pending: seq<int>, k: nat): (p: Picked)
    ensures p.id.Some? <==> k < |pending|
    ensures |p.rest| == if pending == [] then 0 else |pending| - 1
  {
    var id := if k < |pending| then Some(pending[k]) else None;
    var at := match id case Some(x) => IndexOf(pending, x) case None => -1;
    Picked(id, Splice1(pending, at))
  }

  // ---------------------------------------------------------------------------------------
  // Properties

  /** In range, the id at `k` is drawn and its first occurrence is removed. */
  lemma AleatorioInRange(pending: seq<int>, k: nat)
    requires k < |pending|
    ensures var p := Aleatorio(pending, k);
      var j := IndexOf(pending, pending[k]);
      p.id == Some(pending[k]) && 0 <= j <= k && p.rest == pending[..j] + pending[j + 1..]
  {
    var x := pending[k];
    var j := IndexOf(pending, x);
    assert j != -1 by {
      assert x in pending;
    }
    NotBeforeFirst(pending, x, j, k);
    SpliceAt(pending, j);
    assert Aleatorio(pending, k) == Picked(Some(x), Splice1(pending, j));
  }

  /** A position holding `x` is not before the first occurrence of `x`. */
  lemma NotBeforeFirst(s: seq<int>, x: int, j: int, k: nat)
    requires 0 <= j <= |s| && x !in s[..j] && k < |s| && s[k] == x
    ensures j <= k
  {
  }

  lemma SpliceAt(s: seq<int>, j: int)
    requires 0 <= j < |s|
    ensures Splice1(s, j) == s[..j] + s[j + 1..]
  {
  }

  /** With distinct ids the drawn one is exactly the one at `k`: the rest keeps every other id in
      its order, loses the drawn one, and stays free of repetitions. */
  lemma AleatorioDistinct(pending: seq<int>, k: nat)
    requires Distinct(pending) && k < |pending|
    ensures var p := Aleatorio(pending, k);
      && p.id == Some(pending[k])
      && p.rest == pending[..k] + pending[k + 1..]
      && |p.rest| == |pending| - 1
      && pending[k] !in p.rest
      && Distinct(p.rest)
      && multiset(p.rest) + multiset{pending[k]} == multiset(pending)
  {
    AleatorioInRange(pending, k);
    assert IndexOf(pending, pending[k]) == k;
    RemoveAt(pending, k);
  }

  /** Removing one position of a list without repetitions. */
  lemma RemoveAt(s: seq<int>, k: nat)
    requires Distinct(s) && k < |s|
    ensures var rest := s[..k] + s[k + 1..];
      && s[k] !in rest
      && Distinct(rest)
      && multiset(rest) + multiset{s[k]} == multiset(s)
  {
    CutOut(s, k);
  }

  /** Past the end nothing is drawn and the splice at -1 removes the last id. */
  lemma AleatorioOutOfRange(pending: seq<int>, k: nat)
    requires k >= |pending|
    ensures Aleatorio(pending, k) == Picked(None, if pending == [] then [] else pending[..|pending| - 1])
  {
  }
}
