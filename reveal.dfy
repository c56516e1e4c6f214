/**
 * The reveal-once guard of `SectionRevealManager` (script.js:205-231). Each
 * observed `<section>` has a `revealed` flag (its class list contains
 * `revealed`); the calls of `animateSection` are recorded, in order, as the
 * indices of the sections they animate.
 */
module Reveal {

  /** One `IntersectionObserverEntry`: the observed section and whether it intersects. */
  datatype Entry = Entry(target: nat, isIntersecting: bool)

  /** Some entry reports section `t` as intersecting. */
  predicate Intersects(entries: seq<Entry>, t: nat)
  {
    exists i :: 0 <= i < |entries| && entries[i].target == t && entries[i].isIntersecting
  }

  /** The sections below `n` that some entry reports as intersecting. */
  ghost function IntersectingTargets(entries: seq<Entry>, n: nat): set<nat>
  {
    set t: nat | t < n && Intersects(entries, t)
  }

  /** The sections animated by one observer callback, given the sections already `revealed`. */
  function Reveals(revealed: set<nat>, entries: seq<Entry>): (log: seq<nat>)
    ensures |log| <= |entries|
    ensures forall i :: 0 <= i < |log| ==> log[i] !in revealed
    decreases |entries|
  {
    if entries == [] then []
    else
      var e := entries[0];
      if e.isIntersecting && e.target !in revealed then [e.target] + Reveals(revealed + {e.target}, entries[1..])
      else Reveals(revealed, entries[1..])
  }

  /** No section appears twice in a sequence. */
  predicate Distinct(log: seq<nat>)
  {
    forall a, b :: 0 <= a < b < |log| ==> log[a] != log[b]
  }

  /**
   * A callback animates exactly the sections that some entry reports as
   * intersecting and that were not yet revealed, each of them once.
   */
  lemma {:induction false} RevealsOnce(revealed: set<nat>, entries: seq<Entry>)
    ensures Distinct(Reveals(revealed, entries))
    ensures forall t :: t in Reveals(revealed, entries) <==> t !in revealed && Intersects(entries, t)
    decreases |entries|
  {
    if entries != [] {
      var e, rest := entries[0], entries[1..];
      assert forall i :: 0 <= i < |rest| ==> rest[i] == entries[i + 1];
      if e.isIntersecting && e.target !in revealed {
        RevealsOnce(revealed + {e.target}, rest);
        forall t ensures t in Reveals(revealed, entries) <==> t !in revealed && Intersects(entries, t) {
          if t != e.target && Intersects(entries, t) {
            var i :| 0 <= i < |entries| && entries[i].target == t && entries[i].isIntersecting;
            assert Intersects(rest, t) by { assert rest[i - 1] == entries[i]; }
          }
        }
      } else {
        RevealsOnce(revealed, rest);
        forall t ensures t in Reveals(revealed, entries) <==> t !in revealed && Intersects(entries, t) {
          if t !in revealed && Intersects(entries, t) {
            var i :| 0 <= i < |entries| && entries[i].target == t && entries[i].isIntersecting;
            assert i != 0;
            assert Intersects(rest, t) by { assert rest[i - 1] == entries[i]; }
          }
        }
      }
    }
  }

  /** Intersection over one more entry. */
  lemma IntersectsSnoc(entries: seq<Entry>, i: nat, t: nat)
    requires i < |entries|
    ensures Intersects(entries[..i + 1], t) <==>
              Intersects(entries[..i], t) || (entries[i].target == t && entries[i].isIntersecting)
  {
    var a, b := entries[..i], entries[..i + 1];
    assert forall j :: 0 <= j < i ==> a[j] == b[j];
    if Intersects(b, t) {
      var j :| 0 <= j < i + 1 && b[j].target == t && b[j].isIntersecting;
      assert j < i ==> a[j] == b[j];
    }
    if entries[i].target == t && entries[i].isIntersecting {
      assert b[i] == entries[i];
    }
  }

  lemma DistinctAppend(a: seq<nat>, b: seq<nat>)
    requires Distinct(a) && Distinct(b)
    requires forall t :: t in b ==> t !in a
    ensures Distinct(a + b)
  {
    var c := a + b;
    forall x, y | 0 <= x < y < |c| ensures c[x] != c[y] {
      if y < |a| {
        assert c[x] == a[x] && c[y] == a[y];
      } else if x < |a| {
        assert c[x] == a[x] && c[y] == b[y - |a|];
        assert b[y - |a|] in b;
      } else {
        assert c[x] == b[x - |a|] && c[y] == b[y - |a|];
      }
    }
  }

  class SectionRevealManager {
    /** Per observed section: its class list contains `revealed`. */
    const revealed: array<bool>
    /** The sections passed to `animateSection`, in call order. */
    var animations: seq<nat>
    /** The sections whose markup already carried `revealed` at construction. */
    ghost const markupRevealed: set<nat>

    /** The set of revealed sections. */
    ghost function RevealedSet(): set<nat>
      reads revealed
    {
      set t: nat | t < revealed.Length && revealed[t]
    }

    /**
     * Every section revealed since construction has been animated exactly
     * once, and no other section; the markup's revealed sections stay revealed.
     */
    ghost predicate Valid()
      reads this, revealed
    {
      && Distinct(animations)
      && markupRevealed <= RevealedSet()
      && (forall t :: t in animations <==> t in RevealedSet() && t !in markupRevealed)
    }

    /** The observed sections, with the `revealed` flags their markup carries. */
    constructor (revealed0: seq<bool>)
      ensures Valid() && fresh(revealed) && revealed[..] == revealed0 && animations == []
      ensures RevealedSet() == markupRevealed
    {
      revealed := new bool[|revealed0|](i requires 0 <= i < |revealed0| => revealed0[i]);
      animations := [];
      markupRevealed := set t: nat | t < |revealed0| && revealed0[t];
    }

    /**
     * The observer callback: an intersecting entry whose section is not yet
     * revealed marks it and animates it; every other entry does nothing.
     */
    method OnEntries(entries: seq<Entry>)
      requires Valid()
      requires forall i :: 0 <= i < |entries| ==> entries[i].target < revealed.Length
      modifies this, revealed
      ensures Valid()
      ensures animations == old(animations) + Reveals(old(RevealedSet()), entries)
      ensures RevealedSet() == old(RevealedSet()) + IntersectingTargets(entries, revealed.Length)
    {
      ghost var start := RevealedSet();
      ghost var log0 := animations;
      var i := 0;
      while i < |entries|
        invariant 0 <= i <= |entries|
        invariant animations + Reveals(RevealedSet(), entries[i..]) == log0 + Reveals(start, entries)
        invariant RevealedSet() == start + IntersectingTargets(entries[..i], revealed.Length)
      {
        var e := entries[i];
        assert entries[i..][0] == e && entries[i..][1..] == entries[i + 1..];
        ghost var before := RevealedSet();
        ghost var pre := animations;
        if e.isIntersecting && !revealed[e.target] {
          assert e.target !in before;
          ghost var rest := Reveals(before + {e.target}, entries[i + 1..]);
          assert Reveals(before, entries[i..]) == [e.target] + rest;
          revealed[e.target] := true;
          assert RevealedSet() == before + {e.target};
          AnimateSection(e.target);
          assert animations == pre + [e.target];
          assert RevealedSet() == before + {e.target};
          assert animations + Reveals(RevealedSet(), entries[i + 1..]) == pre + Reveals(before, entries[i..]);
        } else {
          assert e.isIntersecting ==> e.target in before;
          assert RevealedSet() == before;
          assert Reveals(before, entries[i..]) == Reveals(before, entries[i + 1..]);
        }
        forall t: nat
          ensures Intersects(entries[..i + 1], t) <==> Intersects(entries[..i], t) || (e.target == t && e.isIntersecting)
        {
          IntersectsSnoc(entries, i, t);
        }
        assert IntersectingTargets(entries[..i + 1], revealed.Length)
            == IntersectingTargets(entries[..i], revealed.Length) + (if e.isIntersecting then {e.target} else {});
        i := i + 1;
      }
      assert entries[..i] == entries;
      assert entries[i..] == [];
      ghost var added := Reveals(start, entries);
      RevealsOnce(start, entries);
      assert animations == log0 + added;
      forall t: nat | Intersects(entries, t) ensures t < revealed.Length {
        var j :| 0 <= j < |entries| && entries[j].target == t && entries[j].isIntersecting;
      }
      assert forall t :: t in added ==> t !in log0;
      DistinctAppend(log0, added);
      assert forall t :: t in added ==> t !in markupRevealed;
    }

    /** `animateSection`: the section's headings and paragraphs get their staggered entrance. */
    method AnimateSection(t: nat)
      modifies this
      ensures animations == old(animations) + [t]
    {
      animations := animations + [t];
    }
  }
}
