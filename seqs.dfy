/**
  Generic sequence operations that the slug pipeline is built from, each over
  an arbitrary element class `p`:

  - Filter keeps the elements of one class (a regular-expression substitution
    of a one-character class by the empty string);
  - Trim drops a run of the class from both ends (`str.strip`);
  - CollapseRuns replaces every maximal run of the class by one element (a
    substitution of `[class]+` by a one-character replacement).

  Stating them over an abstract class keeps their proofs independent of the
  character tables they are later used with.
 */
module Seqs {

  /** Every element of `s` is in the class `p`. */
  predicate All<T>(p: T -> bool, s: seq<T>) {
    forall i :: 0 <= i < |s| ==> p(s[i])
  }

  /** No two neighbouring elements of `s` are both in the class `p`. */
  predicate NoAdjacent<T>(p: T -> bool, s: seq<T>) {
    forall i, j :: 0 <= i < |s| && 0 <= j < |s| && j == i + 1 ==> !(p(s[i]) && p(s[j]))
  }

  /** The classes `p` and `q` agree on every element of `s`. */
  predicate Agree<T>(p: T -> bool, q: T -> bool, s: seq<T>) {
    forall i :: 0 <= i < |s| ==> (p(s[i]) <==> q(s[i]))
  }

  /** Two classes that agree on a sequence agree on each of its slices. */
  lemma AgreeSlice<T>(p: T -> bool, q: T -> bool, s: seq<T>, lo: nat, hi: nat)
    requires Agree(p, q, s) && lo <= hi <= |s|
    ensures Agree(p, q, s[lo..hi])
  {
    assert forall i :: 0 <= i < hi - lo ==> s[lo..hi][i] == s[lo + i];
  }

  lemma ConcatAssoc<T>(x: seq<T>, y: seq<T>, z: seq<T>)
    ensures x + (y + z) == (x + y) + z
  {
  }

  /** A concatenation is inside a class exactly when both parts are. */
  lemma AllConcat<T>(p: T -> bool, a: seq<T>, b: seq<T>)
    ensures All(p, a + b) <==> All(p, a) && All(p, b)
  {
    if All(p, a) && All(p, b) {
      forall i | 0 <= i < |a + b| ensures p((a + b)[i]) {
        if i < |a| {
          assert (a + b)[i] == a[i];
        } else {
          assert (a + b)[i] == b[i - |a|];
        }
      }
    }
    if All(p, a + b) {
      forall i | 0 <= i < |b| ensures p(b[i]) {
        assert (a + b)[|a| + i] == b[i];
      }
      forall i | 0 <= i < |a| ensures p(a[i]) {
        assert (a + b)[i] == a[i];
      }
    }
  }

  // ----- Filter ----------------------------------------------------------------

  /** The elements of `s` that are in the class `p`, in their original order. */
  function Filter<T>(p: T -> bool, s: seq<T>): (r: seq<T>)
    ensures |r| <= |s|
    ensures All(p, r)
    ensures r == [] <==> forall i :: 0 <= i < |s| ==> !p(s[i])
    ensures All(p, s) ==> r == s
  {
    if s == [] then []
    else
      var rest := Filter(p, s[1..]);
      assert forall i :: 1 <= i < |s| ==> s[i] == s[1..][i - 1];
      if p(s[0]) then [s[0]] + rest else rest
  }

  /** Filtering a single element keeps it exactly when it is in the class. */
  lemma FilterOne<T>(p: T -> bool, e: T)
    ensures Filter(p, [e]) == if p(e) then [e] else []
  {
    assert [e][1..] == [];
  }

  /** Filtering distributes over concatenation. */
  lemma {:induction false} FilterConcat<T>(p: T -> bool, a: seq<T>, b: seq<T>)
    ensures Filter(p, a + b) == Filter(p, a) + Filter(p, b)
  {
    if a == [] {
      assert a + b == b;
    } else {
      assert (a + b)[0] == a[0];
      assert (a + b)[1..] == a[1..] + b;
      FilterConcat(p, a[1..], b);
    }
  }

  /** A filter by a narrower class sees through a filter by a wider one. */
  lemma {:induction false} FilterSubsumed<T>(p: T -> bool, q: T -> bool, s: seq<T>)
    requires forall x :: p(x) ==> q(x)
    ensures Filter(p, Filter(q, s)) == Filter(p, s)
  {
    if s != [] {
      FilterSubsumed(p, q, s[1..]);
      if q(s[0]) {
        FilterConcat(p, [s[0]], Filter(q, s[1..]));
      }
    }
  }

  /** Filtering only removes elements: a class that holds of every element of
      `s` holds of every element of the result. */
  lemma {:induction false} FilterWithin<T>(p: T -> bool, q: T -> bool, s: seq<T>)
    requires All(q, s)
    ensures All(q, Filter(p, s))
  {
    if s != [] {
      assert s == [s[0]] + s[1..];
      assert All(q, s[1..]) by {
        assert forall i :: 0 <= i < |s| - 1 ==> s[1..][i] == s[i + 1];
      }
      FilterWithin(p, q, s[1..]);
      FilterConcat(p, [s[0]], s[1..]);
      AllConcat(q, Filter(p, [s[0]]), Filter(p, s[1..]));
    }
  }

  // ----- Trim ----------------------------------------------------------------------

  /** The suffix of `s` left once its leading run of `p`-elements is dropped. */
  function DropWhile<T>(p: T -> bool, s: seq<T>): (r: seq<T>)
    ensures |r| <= |s| && r == s[|s| - |r|..]
    ensures All(p, s[..|s| - |r|])
    ensures r == [] || !p(r[0])
  {
    if s != [] && p(s[0]) then
      var r := DropWhile(p, s[1..]);
      assert s[..|s| - |r|] == [s[0]] + s[1..][..|s| - 1 - |r|];
      r
    else s
  }

  /** The prefix of `s` left once its trailing run of `p`-elements is dropped. */
  function DropLastWhile<T>(p: T -> bool, s: seq<T>): (r: seq<T>)
    ensures |r| <= |s| && r == s[..|r|]
    ensures All(p, s[|r|..])
    ensures r == [] || !p(r[|r| - 1])
  {
    if s != [] && p(s[|s| - 1]) then
      var r := DropLastWhile(p, s[..|s| - 1]);
      assert s[|r|..] == s[..|s| - 1][|r|..] + [s[|s| - 1]];
      r
    else s
  }

  /** `s` without its leading and its trailing run of `p`-elements. */
  function Trim<T>(p: T -> bool, s: seq<T>): (r: seq<T>)
    ensures |r| <= |s|
    ensures r == [] || (!p(r[0]) && !p(r[|r| - 1]))
  {
    var left := DropWhile(p, s);
    var r := DropLastWhile(p, left);
    assert r != [] ==> r[0] == left[0];
    r
  }

  /** A sequence made only of `p`-elements is dropped entirely, from either end. */
  lemma DropAll<T>(p: T -> bool, s: seq<T>)
    requires All(p, s)
    ensures DropWhile(p, s) == [] && DropLastWhile(p, s) == []
  {
    var d := DropWhile(p, s);
    assert d == s[|s| - |d|..];
    var e := DropLastWhile(p, s);
    assert e == s[..|e|];
  }

  /** Dropping a leading run from a concatenation reaches into `b` only when
      all of `a` is dropped. */
  lemma {:induction false} DropWhileConcat<T>(p: T -> bool, a: seq<T>, b: seq<T>)
    ensures DropWhile(p, a + b) ==
      if DropWhile(p, a) == [] then DropWhile(p, b) else DropWhile(p, a) + b
  {
    if a == [] {
      assert a + b == b;
    } else if p(a[0]) {
      assert (a + b)[0] == a[0];
      assert (a + b)[1..] == a[1..] + b;
      DropWhileConcat(p, a[1..], b);
    } else {
      assert (a + b)[0] == a[0];
    }
  }

  /** Dropping a trailing run from a concatenation reaches into `a` only when
      all of `b` is dropped. */
  lemma {:induction false} DropLastWhileConcat<T>(p: T -> bool, a: seq<T>, b: seq<T>)
    ensures DropLastWhile(p, a + b) ==
      if DropLastWhile(p, b) == [] then DropLastWhile(p, a) else a + DropLastWhile(p, b)
  {
    if b == [] {
      assert a + b == a;
    } else if p(b[|b| - 1]) {
      assert (a + b)[|a + b| - 1] == b[|b| - 1];
      assert (a + b)[..|a + b| - 1] == a + b[..|b| - 1];
      DropLastWhileConcat(p, a, b[..|b| - 1]);
    } else {
      assert (a + b)[|a + b| - 1] == b[|b| - 1];
    }
  }

  /** DropWhile removes a prefix made of `p`-elements. */
  lemma DropWhileSplit<T>(p: T -> bool, s: seq<T>) returns (lead: seq<T>)
    ensures All(p, lead) && s == lead + DropWhile(p, s)
  {
    var k := |s| - |DropWhile(p, s)|;
    lead := s[..k];
    assert s == s[..k] + s[k..];
  }

  /** DropLastWhile removes a suffix made of `p`-elements. */
  lemma DropLastWhileSplit<T>(p: T -> bool, s: seq<T>) returns (trail: seq<T>)
    ensures All(p, trail) && s == DropLastWhile(p, s) + trail
  {
    var k := |DropLastWhile(p, s)|;
    trail := s[k..];
    assert s == s[..k] + s[k..];
  }

  /** Trim cuts `s` into a leading run of `p`, the result, and a trailing run of `p`. */
  lemma TrimSplit<T>(p: T -> bool, s: seq<T>) returns (lead: seq<T>, trail: seq<T>)
    ensures All(p, lead) && All(p, trail)
    ensures s == lead + Trim(p, s) + trail
  {
    lead := DropWhileSplit(p, s);
    var left := DropWhile(p, s);
    trail := DropLastWhileSplit(p, left);
    var r := DropLastWhile(p, left);
    assert Trim(p, s) == r;
    ConcatAssoc(lead, r, trail);
  }

  /** Trim keeps only elements of its input: a class that holds of every
      element of `s` holds of every element of the result. */
  lemma TrimWithin<T>(p: T -> bool, q: T -> bool, s: seq<T>)
    requires All(q, s)
    ensures All(q, Trim(p, s))
  {
    var lead, trail := TrimSplit(p, s);
    AllConcat(q, lead + Trim(p, s), trail);
    AllConcat(q, lead, Trim(p, s));
  }

  /** Conversely, any such cut determines the result of Trim. */
  lemma TrimUnique<T>(p: T -> bool, lead: seq<T>, r: seq<T>, trail: seq<T>)
    requires All(p, lead) && All(p, trail)
    requires r == [] || (!p(r[0]) && !p(r[|r| - 1]))
    ensures Trim(p, lead + r + trail) == r
  {
    assert lead + r + trail == lead + (r + trail);
    DropAll(p, lead);
    DropAll(p, trail);
    DropWhileConcat(p, lead, r + trail);
    if r == [] {
      assert r + trail == trail;
    } else {
      DropLastWhileConcat(p, r, trail);
    }
  }

  /** Trim never removes an element outside its class, so a filter by a
      class disjoint from it sees through it. */
  lemma FilterTrim<T>(p: T -> bool, q: T -> bool, s: seq<T>)
    requires forall x :: q(x) ==> !p(x)
    ensures Filter(q, Trim(p, s)) == Filter(q, s)
  {
    var lead, trail := TrimSplit(p, s);
    var r := Trim(p, s);
    FilterConcat(q, lead + r, trail);
    FilterConcat(q, lead, r);
    FilterOutside(p, q, lead);
    FilterOutside(p, q, trail);
    calc {
      Filter(q, s);
      Filter(q, lead + r) + Filter(q, trail);
      Filter(q, lead) + Filter(q, r);
      { assert Filter(q, lead) == []; }
      Filter(q, r);
    }
  }

  /** Filtering a sequence of `p`-elements by a class disjoint from `p` keeps nothing. */
  lemma FilterOutside<T>(p: T -> bool, q: T -> bool, s: seq<T>)
    requires forall x :: q(x) ==> !p(x)
    requires All(p, s)
    ensures Filter(q, s) == []
  {
    assert forall i :: 0 <= i < |s| ==> !q(s[i]);
  }

  /** DropWhile depends only on how the class judges the elements of `s`. */
  lemma {:induction false} DropWhileAgree<T>(p: T -> bool, q: T -> bool, s: seq<T>)
    requires Agree(p, q, s)
    ensures DropWhile(p, s) == DropWhile(q, s)
  {
    if s != [] && p(s[0]) {
      AgreeSlice(p, q, s, 1, |s|);
      assert s[1..|s|] == s[1..];
      DropWhileAgree(p, q, s[1..]);
    }
  }

  /** DropLastWhile depends only on how the class judges the elements of `s`. */
  lemma {:induction false} DropLastWhileAgree<T>(p: T -> bool, q: T -> bool, s: seq<T>)
    requires Agree(p, q, s)
    ensures DropLastWhile(p, s) == DropLastWhile(q, s)
  {
    if s != [] && p(s[|s| - 1]) {
      AgreeSlice(p, q, s, 0, |s| - 1);
      assert s[0..|s| - 1] == s[..|s| - 1];
      DropLastWhileAgree(p, q, s[..|s| - 1]);
    }
  }

  /** Trim depends only on how the class judges the elements of `s`: two
      classes that agree there trim `s` alike. */
  lemma TrimAgree<T>(p: T -> bool, q: T -> bool, s: seq<T>)
    requires Agree(p, q, s)
    ensures Trim(p, s) == Trim(q, s)
  {
    DropWhileAgree(p, q, s);
    var left := DropWhile(p, s);
    AgreeSlice(p, q, s, |s| - |left|, |s|);
    assert s[|s| - |left|..|s|] == left;
    DropLastWhileAgree(p, q, left);
  }

  // ----- CollapseRuns --------------------------------------------------------------

  /** `s` with every maximal run of `p`-elements replaced by the one element
      `rep`. A run element followed by another run element yields nothing, the
      last element of a run yields `rep`, and every other element is copied. */
  function CollapseRuns<T>(p: T -> bool, rep: T, s: seq<T>): (r: seq<T>)
    ensures |r| <= |s|
    ensures r == [] <==> s == []
    ensures s != [] && p(s[0]) ==> r[0] == rep
    ensures s != [] && !p(s[0]) ==> r[0] == s[0]
    ensures s != [] && p(s[|s| - 1]) ==> r[|r| - 1] == rep
    ensures s != [] && !p(s[|s| - 1]) ==> r[|r| - 1] == s[|s| - 1]
    ensures forall i :: 0 <= i < |r| && p(r[i]) ==> r[i] == rep
    ensures NoAdjacent(p, r)
  {
    if s == [] then []
    else
      var tail := CollapseRuns(p, rep, s[1..]);
      assert |s| > 1 ==> s[1..][0] == s[1] && s[1..][|s| - 2] == s[|s| - 1];
      if p(s[0]) && |s| > 1 && p(s[1]) then tail
      else
        var r := [if p(s[0]) then rep else s[0]] + tail;
        assert forall i :: 1 <= i < |r| ==> r[i] == tail[i - 1];
        r
  }

  /** One step of CollapseRuns, for a sequence given by its head and tail. */
  lemma CollapseRunsCons<T>(p: T -> bool, rep: T, c: T, t: seq<T>)
    ensures CollapseRuns(p, rep, [c] + t) ==
      if p(c) && t != [] && p(t[0]) then CollapseRuns(p, rep, t)
      else [if p(c) then rep else c] + CollapseRuns(p, rep, t)
  {
    assert ([c] + t)[1..] == t;
  }

  /** CollapseRuns works run by run: it distributes over every cut that does
      not split a run. */
  lemma {:induction false} CollapseRunsConcat<T>(p: T -> bool, rep: T, a: seq<T>, b: seq<T>)
    requires a == [] || b == [] || !p(a[|a| - 1]) || !p(b[0])
    ensures CollapseRuns(p, rep, a + b) == CollapseRuns(p, rep, a) + CollapseRuns(p, rep, b)
  {
    if a == [] {
      assert a + b == b;
    } else {
      var c, t := a[0], a[1..];
      var tb := t + b;
      assert a == [c] + t;
      assert a + b == [c] + tb;
      var x, y := CollapseRuns(p, rep, t), CollapseRuns(p, rep, b);
      if t != [] {
        CollapseRunsConcat(p, rep, t, b);
        assert t[0] == tb[0];
      } else {
        assert tb == b;
        assert a[|a| - 1] == c;
      }
      assert CollapseRuns(p, rep, tb) == x + y;
      CollapseRunsCons(p, rep, c, t);
      CollapseRunsCons(p, rep, c, tb);
      if p(c) && tb != [] && p(tb[0]) {
        assert t != [];
        assert CollapseRuns(p, rep, a + b) == x + y;
        assert CollapseRuns(p, rep, a) == x;
      } else {
        var h := if p(c) then rep else c;
        assert CollapseRuns(p, rep, a + b) == [h] + (x + y);
        assert CollapseRuns(p, rep, a) == [h] + x;
        ConcatAssoc([h], x, y);
      }
    }
  }

  /** A non-empty run collapses to the single replacement element. */
  lemma {:induction false} CollapseRunsOfRun<T>(p: T -> bool, rep: T, s: seq<T>)
    requires s != [] && All(p, s)
    ensures CollapseRuns(p, rep, s) == [rep]
  {
    if |s| > 1 {
      CollapseRunsOfRun(p, rep, s[1..]);
    }
  }

  /** Every element outside the class survives collapsing, in order. */
  lemma {:induction false} CollapseRunsKeeps<T>(p: T -> bool, rep: T, q: T -> bool, s: seq<T>)
    requires forall x :: q(x) ==> !p(x)
    requires !q(rep)
    ensures Filter(q, CollapseRuns(p, rep, s)) == Filter(q, s)
  {
    if s != [] {
      var c, t := s[0], s[1..];
      assert s == [c] + t;
      CollapseRunsKeeps(p, rep, q, t);
      CollapseRunsCons(p, rep, c, t);
      FilterConcat(q, [c], t);
      if !(p(c) && t != [] && p(t[0])) {
        FilterConcat(q, [if p(c) then rep else c], CollapseRuns(p, rep, t));
      }
    }
  }

  /** Every element of the result is `rep` or an element of `s` outside the
      class: a class `q` that holds of `rep` and of every such element holds of
      the whole result. */
  lemma {:induction false} CollapseRunsWithin<T>(p: T -> bool, rep: T, q: T -> bool, s: seq<T>)
    requires q(rep)
    requires forall i :: 0 <= i < |s| ==> p(s[i]) || q(s[i])
    ensures All(q, CollapseRuns(p, rep, s))
  {
    if s != [] {
      var c, t := s[0], s[1..];
      assert s == [c] + t;
      CollapseRunsWithin(p, rep, q, t);
      CollapseRunsCons(p, rep, c, t);
    }
  }

  /** CollapseRuns leaves `s` unchanged exactly when no two class elements are
      neighbours and every class element already is `rep`. */
  lemma {:induction false} CollapseRunsFixpoint<T>(p: T -> bool, rep: T, s: seq<T>)
    ensures CollapseRuns(p, rep, s) == s <==>
      NoAdjacent(p, s) && forall i :: 0 <= i < |s| && p(s[i]) ==> s[i] == rep
  {
    if s != [] && NoAdjacent(p, s) && forall i :: 0 <= i < |s| && p(s[i]) ==> s[i] == rep {
      var c, t := s[0], s[1..];
      assert s == [c] + t;
      assert forall i :: 0 <= i < |t| ==> t[i] == s[i + 1];
      assert NoAdjacent(p, t) by {
        forall i, j | 0 <= i < |t| && 0 <= j < |t| && j == i + 1
          ensures !(p(t[i]) && p(t[j]))
        {
          assert t[i] == s[i + 1] && t[j] == s[j + 1];
        }
      }
      CollapseRunsFixpoint(p, rep, t);
      assert CollapseRuns(p, rep, t) == t;
      CollapseRunsCons(p, rep, c, t);
      assert t != [] && p(c) ==> !p(t[0]) by {
        if t != [] && p(c) {
          assert s[0] == c && s[1] == t[0];
        }
      }
      assert (if p(c) then rep else c) == c;
    }
  }

  /** CollapseRuns depends only on how the class judges the elements of `s`:
      two classes that agree there collapse `s` alike. */
  lemma {:induction false} CollapseRunsAgree<T>(p: T -> bool, q: T -> bool, rep: T, s: seq<T>)
    requires Agree(p, q, s)
    ensures CollapseRuns(p, rep, s) == CollapseRuns(q, rep, s)
  {
    if s != [] {
      AgreeSlice(p, q, s, 1, |s|);
      assert s[1..|s|] == s[1..];
      CollapseRunsAgree(p, q, rep, s[1..]);
      assert |s| > 1 ==> (p(s[1]) <==> q(s[1]));
    }
  }
}
