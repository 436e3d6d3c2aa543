/**
 * The merge that moves a finished node's output into a successor's input
 * (getdata1014.py:233). `list.extend` consumes the generator one record at a
 * time, so each `not in` test already sees the records appended earlier in
 * the same call: the merge is a check-then-append loop over the output.
 */
module Propagation {

  /** No record occurs twice. */
  predicate NoDup<T(==)>(s: seq<T>)
  {
    forall i, j :: 0 <= i < j < |s| ==> s[i] != s[j]
  }

  /** The records of a sequence, as a set. */
  ghost function Elems<T>(s: seq<T>): set<T>
  {
    set x | x in s
  }

  /** One more record adds exactly that record to the set. */
  lemma ElemsSnoc<T>(s: seq<T>, x: T)
    ensures Elems(s + [x]) == Elems(s) + {x}
  {
  }

  /** A duplicate-free sequence has as many distinct records as entries. */
  lemma {:induction false} NoDupCard<T>(s: seq<T>)
    requires NoDup(s)
    ensures |Elems(s)| == |s|
  {
    if s != [] {
      var p, x := s[..|s| - 1], s[|s| - 1];
      assert s == p + [x];
      assert forall i :: 0 <= i < |p| ==> p[i] == s[i];
      NoDupCard(p);
      ElemsSnoc(p, x);
    }
  }

  /** A duplicate-free extension of p that holds nothing p does not is p itself. */
  lemma NoDupFill<T>(p: seq<T>, s: seq<T>)
    requires p <= s && NoDup(s) && Elems(s) <= Elems(p)
    ensures s == p
  {
    assert forall i :: 0 <= i < |p| ==> p[i] == s[i];
    NoDupCard(p);
    NoDupCard(s);
    assert Elems(s) == Elems(p);
  }

  /** Joining two duplicate-free sequences with no record in common gives a duplicate-free sequence. */
  lemma NoDupAppend<T>(a: seq<T>, b: seq<T>)
    requires NoDup(a) && NoDup(b)
    requires forall i :: 0 <= i < |b| ==> b[i] !in a
    ensures NoDup(a + b)
  {
    forall i, j | 0 <= i < j < |a + b| ensures (a + b)[i] != (a + b)[j] {
      if i < |a| && j >= |a| {
        assert (a + b)[j] == b[j - |a|];
      }
    }
  }

  /** `input` after `input.extend(r for r in recs if r not in input)`. */
  function Extend<T(==)>(input: seq<T>, recs: seq<T>): seq<T>
    decreases |recs|
  {
    if recs == [] then input
    else Extend(if recs[0] in input then input else input + [recs[0]], recs[1..])
  }

  /** The existing input is kept, unchanged, as a prefix. */
  lemma {:induction false} ExtendKeepsPrefix<T>(input: seq<T>, recs: seq<T>)
    ensures |input| <= |Extend(input, recs)|
    ensures Extend(input, recs)[..|input|] == input
    decreases |recs|
  {
    if recs != [] {
      var next := if recs[0] in input then input else input + [recs[0]];
      ExtendKeepsPrefix(next, recs[1..]);
      assert next[..|input|] == input;
    }
  }

  /** A duplicate-free input stays duplicate-free. */
  lemma {:induction false} ExtendNoDup<T>(input: seq<T>, recs: seq<T>)
    requires NoDup(input)
    ensures NoDup(Extend(input, recs))
    decreases |recs|
  {
    if recs != [] {
      var next := if recs[0] in input then input else input + [recs[0]];
      assert NoDup(next) by {
        if recs[0] !in input {
          forall i, j | 0 <= i < j < |next| ensures next[i] != next[j] {
            if j == |input| {
              assert next[i] == input[i];
            }
          }
        }
      }
      ExtendNoDup(next, recs[1..]);
    }
  }

  /** The merged input holds exactly the old input's records and the new ones. */
  lemma {:induction false} ExtendElements<T>(input: seq<T>, recs: seq<T>, x: T)
    ensures x in Extend(input, recs) <==> x in input || x in recs
    decreases |recs|
  {
    if recs != [] {
      var next := if recs[0] in input then input else input + [recs[0]];
      ExtendElements(next, recs[1..], x);
      assert recs == [recs[0]] + recs[1..];
    }
  }

  /** Records already present are never appended again. */
  lemma {:induction false} ExtendPresent<T>(input: seq<T>, recs: seq<T>)
    requires forall x :: x in recs ==> x in input
    ensures Extend(input, recs) == input
    decreases |recs|
  {
    if recs != [] {
      assert recs[0] in input;
      ExtendPresent(input, recs[1..]);
    }
  }

  /** Merging the same output twice gives what merging it once gives. */
  lemma ExtendIdempotent<T>(input: seq<T>, recs: seq<T>)
    ensures Extend(Extend(input, recs), recs) == Extend(input, recs)
  {
    var once := Extend(input, recs);
    forall x | x in recs ensures x in once {
      ExtendElements(input, recs, x);
    }
    ExtendPresent(once, recs);
  }
}
