/**
 * The scroll behaviour of `NavigationManager` (script.js:68-138): the
 * `scrolled` class on the navbar and the `active` class on the link of the
 * section under the probe line `scrollY + 200`.
 *
 * A section is its `id` and its integer `(offsetTop, clientHeight)`; the
 * document's anchors are listed in document order with their `href` and
 * whether they are `.nav-link` elements; `active` holds, per anchor, whether
 * its class list contains `active`.
 */
module Navigation {
  import opened Common
  import Throttle

  /** The navbar is `scrolled` once the page is scrolled past this many pixels. */
  const ScrolledThreshold: int := 50
  /** The probe line sits this many pixels below the top of the viewport. */
  const ProbeOffset: int := 200

  datatype Section = Section(id: string, top: int, height: int)
  datatype Anchor = Anchor(href: string, navLink: bool)

  /** A section covers the half-open interval `[top, top + height)`. */
  predicate Covers(s: Section, probe: int)
    ensures Covers(s, probe) ==> s.height > 0 && s.top <= probe
  {
    s.top <= probe < s.top + s.height
  }

  /** The index of the last section, in document order, that covers the probe. */
  function LastMatch(sections: seq<Section>, probe: int): (m: Option<nat>)
    ensures m.Some? ==> m.value < |sections| && Covers(sections[m.value], probe)
    ensures m.Some? ==> forall j :: m.value < j < |sections| ==> !Covers(sections[j], probe)
    ensures m.None? <==> forall j :: 0 <= j < |sections| ==> !Covers(sections[j], probe)
  {
    if |sections| == 0 then None
    else if Covers(sections[|sections| - 1], probe) then Some(|sections| - 1)
    else LastMatch(sections[..|sections| - 1], probe)
  }

  /** `document.querySelector('a[href="…"]')`: the first anchor in document order with that `href`. */
  function FirstAnchor(anchors: seq<Anchor>, href: string): (r: Option<nat>)
    ensures r.Some? ==> r.value < |anchors| && anchors[r.value].href == href
    ensures r.Some? ==> forall j :: 0 <= j < r.value ==> anchors[j].href != href
    ensures r.None? <==> forall j :: 0 <= j < |anchors| ==> anchors[j].href != href
  {
    if anchors == [] then None
    else if anchors[0].href == href then Some(0)
    else match FirstAnchor(anchors[1..], href)
      case None => None
      case Some(k) => Some(k + 1)
  }

  /** The anchor that `updateActiveLink` marks for a section: the first one pointing at `#id`. */
  function LinkFor(anchors: seq<Anchor>, s: Section): Option<nat>
  {
    FirstAnchor(anchors, "#" + s.id)
  }

  /** The inner `forEach`: every `.nav-link` loses `active`, other anchors keep their state. */
  function ClearNavLinks(anchors: seq<Anchor>, active: seq<bool>): (r: seq<bool>)
    requires |active| == |anchors|
    ensures |r| == |active|
    ensures forall j :: 0 <= j < |r| && anchors[j].navLink ==> !r[j]
    ensures forall j :: 0 <= j < |r| && !anchors[j].navLink ==> r[j] == active[j]
  {
    seq(|active|, j requires 0 <= j < |active| => !anchors[j].navLink && active[j])
  }

  /** One iteration of the outer `forEach` over the sections. */
  function Visit(anchors: seq<Anchor>, active: seq<bool>, s: Section, probe: int): (r: seq<bool>)
    requires |active| == |anchors|
    ensures |r| == |active|
    ensures !Covers(s, probe) ==> r == active
    ensures Covers(s, probe) ==> forall j :: 0 <= j < |r| && anchors[j].navLink ==> (r[j] <==> LinkFor(anchors, s) == Some(j))
    ensures Covers(s, probe) ==> forall j :: 0 <= j < |r| && !anchors[j].navLink ==> (r[j] <==> active[j] || LinkFor(anchors, s) == Some(j))
  {
    if !Covers(s, probe) then active
    else
      var cleared := ClearNavLinks(anchors, active);
      match LinkFor(anchors, s)
      case None => cleared
      case Some(k) => cleared[k := true]
  }

  /** The link states after visiting the sections in document order. */
  function Scan(anchors: seq<Anchor>, active: seq<bool>, sections: seq<Section>, probe: int): (r: seq<bool>)
    requires |active| == |anchors|
    ensures |r| == |active|
    ensures forall j :: 0 <= j < |r| && r[j] && !active[j] ==>
              exists i :: 0 <= i < |sections| && Covers(sections[i], probe) && LinkFor(anchors, sections[i]) == Some(j)
  {
    if sections == [] then active
    else Visit(anchors, Scan(anchors, active, sections[..|sections| - 1], probe), sections[|sections| - 1], probe)
  }

  /** When no section covers the probe, no link changes. */
  lemma {:induction false} ScanNoMatch(anchors: seq<Anchor>, active: seq<bool>, sections: seq<Section>, probe: int)
    requires |active| == |anchors|
    requires LastMatch(sections, probe).None?
    ensures Scan(anchors, active, sections, probe) == active
  {
    if sections != [] {
      var init := sections[..|sections| - 1];
      assert forall j :: 0 <= j < |init| ==> init[j] == sections[j];
      ScanNoMatch(anchors, active, init, probe);
    }
  }

  /**
   * When some section covers the probe, the LAST such section decides: among
   * the `.nav-link` anchors exactly its link is active (none, if it has no
   * `.nav-link` anchor as its first `#id` anchor).
   */
  lemma {:induction false} ScanNavLinks(anchors: seq<Anchor>, active: seq<bool>, sections: seq<Section>, probe: int)
    requires |active| == |anchors|
    requires LastMatch(sections, probe).Some?
    ensures var r := Scan(anchors, active, sections, probe);
            var k := LastMatch(sections, probe).value;
            forall j :: 0 <= j < |anchors| && anchors[j].navLink ==>
              (r[j] <==> LinkFor(anchors, sections[k]) == Some(j))
  {
    var n := |sections|;
    if !Covers(sections[n - 1], probe) {
      ScanNavLinks(anchors, active, sections[..n - 1], probe);
    }
  }

  /**
   * An anchor that is not a `.nav-link` is never cleared: it is active
   * afterwards iff it was before or it is the link of some covering section.
   */
  lemma {:induction false} ScanOtherAnchors(anchors: seq<Anchor>, active: seq<bool>, sections: seq<Section>, probe: int, j: nat)
    requires |active| == |anchors|
    requires j < |anchors| && !anchors[j].navLink
    ensures Scan(anchors, active, sections, probe)[j] <==>
              active[j] || exists i :: 0 <= i < |sections| && Covers(sections[i], probe) && LinkFor(anchors, sections[i]) == Some(j)
  {
    if sections != [] {
      var n := |sections|;
      var init := sections[..n - 1];
      ScanOtherAnchors(anchors, active, init, probe, j);
      assert forall i :: 0 <= i < n - 1 ==> init[i] == sections[i];
      if exists i :: 0 <= i < n && Covers(sections[i], probe) && LinkFor(anchors, sections[i]) == Some(j) {
        var i :| 0 <= i < n && Covers(sections[i], probe) && LinkFor(anchors, sections[i]) == Some(j);
        if i < n - 1 {
          assert init[i] == sections[i];
        }
      }
    }
  }

  /** After a match at most one `.nav-link` is active. */
  lemma AtMostOneNavLinkActive(anchors: seq<Anchor>, active: seq<bool>, sections: seq<Section>, probe: int)
    requires |active| == |anchors|
    requires LastMatch(sections, probe).Some?
    ensures var r := Scan(anchors, active, sections, probe);
            forall a, b :: 0 <= a < |anchors| && 0 <= b < |anchors| && anchors[a].navLink && anchors[b].navLink && r[a] && r[b] ==> a == b
  {
    ScanNavLinks(anchors, active, sections, probe);
  }

  class NavigationManager {
    /** Every anchor of the document in document order; `.nav-link` ones are flagged. */
    const anchors: seq<Anchor>
    /** Per anchor: its class list contains `active`. */
    var active: seq<bool>
    /** The navbar's class list contains `scrolled`. */
    var scrolled: bool
    /** The gate of the throttled scroll handler built in `setupNavigation`. */
    const gate: Throttle.Gate

    ghost predicate Valid()
      reads this
    {
      |active| == |anchors|
    }

    constructor (anchors0: seq<Anchor>, active0: seq<bool>, scrolled0: bool)
      requires |active0| == |anchors0|
      ensures Valid() && fresh(gate)
      ensures anchors == anchors0 && active == active0 && scrolled == scrolled0 && !gate.inThrottle
    {
      anchors, active, scrolled := anchors0, active0, scrolled0;
      gate := new Throttle.Gate();
    }

    /** `updateActiveLink`, with the document's `section[id]` elements as they lie out now. */
    method UpdateActiveLink(scrollY: int, sections: seq<Section>)
      requires Valid()
      modifies this
      ensures Valid()
      ensures active == Scan(anchors, old(active), sections, scrollY + ProbeOffset)
      ensures LastMatch(sections, scrollY + ProbeOffset).None? ==> active == old(active)
      ensures LastMatch(sections, scrollY + ProbeOffset).Some? ==>
                var k := LastMatch(sections, scrollY + ProbeOffset).value;
                forall j :: 0 <= j < |anchors| && anchors[j].navLink ==>
                  (active[j] <==> LinkFor(anchors, sections[k]) == Some(j))
      ensures scrolled == old(scrolled)
    {
      var probe := scrollY + ProbeOffset;
      ghost var before := active;
      var i := 0;
      while i < |sections|
        invariant 0 <= i <= |sections|
        invariant Valid() && scrolled == old(scrolled)
        invariant active == Scan(anchors, before, sections[..i], probe)
      {
        var s := sections[i];
        if probe >= s.top && probe < s.top + s.height {
          ghost var pre := active;
          var j := 0;
          while j < |active|
            invariant 0 <= j <= |active| == |anchors|
            invariant scrolled == old(scrolled)
            invariant forall t :: 0 <= t < j ==> active[t] == ClearNavLinks(anchors, pre)[t]
            invariant forall t :: j <= t < |active| ==> active[t] == pre[t]
          {
            if anchors[j].navLink {
              active := active[j := false];
            }
            j := j + 1;
          }
          assert active == ClearNavLinks(anchors, pre);
          var link := FirstAnchor(anchors, "#" + s.id);
          if link.Some? {
            active := active[link.value := true];
          }
        }
        assert sections[..i + 1][..i] == sections[..i];
        i := i + 1;
      }
      assert sections[..i] == sections;
      if LastMatch(sections, probe).None? {
        ScanNoMatch(anchors, before, sections, probe);
      } else {
        ScanNavLinks(anchors, before, sections, probe);
      }
    }

    /**
     * The throttled scroll listener: when the gate forwards the call, the
     * navbar is `scrolled` iff `scrollY > 50` and the active link is
     * recomputed; otherwise nothing but the gate changes.
     */
    method OnScroll(scrollY: int, sections: seq<Section>) returns (forwarded: bool)
      requires Valid()
      modifies this, gate
      ensures Valid()
      ensures forwarded == !old(gate.inThrottle) && gate.inThrottle
      ensures forwarded ==> scrolled == (scrollY > ScrolledThreshold)
      ensures forwarded ==> active == Scan(anchors, old(active), sections, scrollY + ProbeOffset)
      ensures !forwarded ==> scrolled == old(scrolled) && active == old(active)
    {
      forwarded := gate.Call();
      if forwarded {
        scrolled := scrollY > ScrolledThreshold;
        UpdateActiveLink(scrollY, sections);
      }
    }

    /** The throttle's 200 ms timer fires. */
    method OnThrottleTimer()
      modifies gate
      ensures !gate.inThrottle
    {
      gate.Expire();
    }
  }
}
