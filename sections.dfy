/**
 * Highlighting the navigation link of the section most in view
 * (`initializeSectionObserver` and `updateActiveNavLink` in js/main.js).
 *
 * The observer callback keeps the entries that intersect the viewport, reduces
 * them to the one with the largest intersection ratio (keeping the earlier one
 * on a tie) and, if there was one, clears every `.nav-link` and marks the first
 * whose `href` is `#` followed by that section's id.
 */
module Sections {
  import opened Options

  /** What the callback reads of an `IntersectionObserverEntry`. */
  datatype Entry = Entry(id: string, isIntersecting: bool, ratio: real)

  /** `entries.filter(entry => entry.isIntersecting)`. */
  function Visible(entries: seq<Entry>): (v: seq<Entry>)
    ensures |v| <= |entries|
    ensures forall k :: 0 <= k < |v| ==> v[k].isIntersecting
  {
    if entries == [] then []
    else (if entries[0].isIntersecting then [entries[0]] else []) + Visible(entries[1..])
  }

  /** `rest.reduce(...)` continued from the accumulator `prev`: a later entry replaces it only with a strictly larger ratio. */
  function Reduce(prev: Entry, rest: seq<Entry>): Entry
    decreases |rest|
  {
    if rest == [] then prev
    else Reduce(if rest[0].ratio > prev.ratio then rest[0] else prev, rest[1..])
  }

  /** The entry the callback picks, or `None` when nothing intersects. */
  function MostVisible(entries: seq<Entry>): Option<Entry>
  {
    var v := Visible(entries);
    if |v| > 0 then Some(Reduce(v[0], v[1..])) else None
  }

  /** `e` is the earliest intersecting entry with the largest ratio, found at `p`. */
  ghost predicate EarliestMax(entries: seq<Entry>, p: int, e: Entry)
  {
    0 <= p < |entries| && entries[p] == e && e.isIntersecting &&
    (forall q :: 0 <= q < |entries| && entries[q].isIntersecting ==> entries[q].ratio <= e.ratio) &&
    (forall q :: 0 <= q < p && entries[q].isIntersecting ==> entries[q].ratio < e.ratio)
  }

  /** The filter starts with the first intersecting entry and goes on with the filter of what follows it. */
  lemma {:induction false} VisibleFirst(entries: seq<Entry>)
    requires |Visible(entries)| > 0
    ensures exists p ::
      (0 <= p < |entries| && entries[p].isIntersecting &&
       (forall q :: 0 <= q < p ==> !entries[q].isIntersecting) &&
       Visible(entries) == [entries[p]] + Visible(entries[p + 1..]))
  {
    if !entries[0].isIntersecting {
      assert Visible(entries) == Visible(entries[1..]);
      VisibleFirst(entries[1..]);
      var p :| 0 <= p < |entries[1..]| && entries[1..][p].isIntersecting &&
        (forall q :: 0 <= q < p ==> !entries[1..][q].isIntersecting) &&
        Visible(entries[1..]) == [entries[1..][p]] + Visible(entries[1..][p + 1..]);
      assert entries[1..][p + 1..] == entries[p + 2..];
      forall q | 0 <= q < p + 1
        ensures !entries[q].isIntersecting
      {
        if q > 0 {
          assert entries[q] == entries[1..][q - 1];
        }
      }
      assert entries[p + 1].isIntersecting;
    } else {
      assert entries[1..] == entries[0 + 1..];
    }
  }

  /**
   * The reduce from an accumulator over the visible part of `entries`: either
   * nothing beats the accumulator, or the result is the earliest intersecting
   * entry of largest ratio and that ratio is larger than the accumulator's.
   */
  lemma {:induction false} ReduceVisible(prev: Entry, entries: seq<Entry>)
    ensures var r := Reduce(prev, Visible(entries));
      (r == prev && forall q :: 0 <= q < |entries| && entries[q].isIntersecting ==> entries[q].ratio <= prev.ratio) ||
      (r.ratio > prev.ratio && exists p :: EarliestMax(entries, p, r))
    decreases |entries|
  {
    if entries != [] {
      var e := entries[0];
      var tail := entries[1..];
      var next := if e.isIntersecting && e.ratio > prev.ratio then e else prev;
      if e.isIntersecting {
        assert Visible(entries) == [e] + Visible(tail);
        assert ([e] + Visible(tail))[1..] == Visible(tail);
      } else {
        assert Visible(entries) == Visible(tail);
      }
      assert Reduce(prev, Visible(entries)) == Reduce(next, Visible(tail));
      ReduceVisible(next, tail);
      var r := Reduce(next, Visible(tail));
      if r == next && forall q :: 0 <= q < |tail| && tail[q].isIntersecting ==> tail[q].ratio <= next.ratio {
        if next == e && e != prev {
          assert EarliestMax(entries, 0, r) by {
            forall q | 0 <= q < |entries| && entries[q].isIntersecting
              ensures entries[q].ratio <= r.ratio
            {
              if q > 0 { assert entries[q] == tail[q - 1]; }
            }
          }
        } else {
          forall q | 0 <= q < |entries| && entries[q].isIntersecting
            ensures entries[q].ratio <= prev.ratio
          {
            if q > 0 { assert entries[q] == tail[q - 1]; }
          }
        }
      } else {
        var p :| EarliestMax(tail, p, r);
        assert EarliestMax(entries, p + 1, r) by {
          forall q | 0 <= q < |entries| && entries[q].isIntersecting
            ensures entries[q].ratio <= r.ratio
            ensures q < p + 1 ==> entries[q].ratio < r.ratio
          {
            if q > 0 { assert entries[q] == tail[q - 1]; }
          }
        }
      }
    }
  }

  /**
   * What the observer callback selects: nothing exactly when no entry
   * intersects; otherwise an intersecting entry whose ratio is at least that of
   * every intersecting entry and strictly more than that of every earlier one.
   */
  lemma MostVisibleSpec(entries: seq<Entry>)
    ensures MostVisible(entries).None? <==> forall q :: 0 <= q < |entries| ==> !entries[q].isIntersecting
    ensures MostVisible(entries).Some? ==> exists p :: EarliestMax(entries, p, MostVisible(entries).value)
  {
    var v := Visible(entries);
    if |v| > 0 {
      VisibleFirst(entries);
      var p :| 0 <= p < |entries| && entries[p].isIntersecting &&
        (forall q :: 0 <= q < p ==> !entries[q].isIntersecting) &&
        v == [entries[p]] + Visible(entries[p + 1..]);
      var e := entries[p];
      var tail := entries[p + 1..];
      assert v[1..] == Visible(tail);
      ReduceVisible(e, tail);
      var r := Reduce(e, Visible(tail));
      if r == e && forall q :: 0 <= q < |tail| && tail[q].isIntersecting ==> tail[q].ratio <= e.ratio {
        assert EarliestMax(entries, p, r) by {
          forall q | 0 <= q < |entries| && entries[q].isIntersecting
            ensures entries[q].ratio <= r.ratio
          {
            if q > p { assert entries[q] == tail[q - p - 1]; }
          }
        }
      } else {
        var p' :| EarliestMax(tail, p', r);
        assert EarliestMax(entries, p + 1 + p', r) by {
          forall q | 0 <= q < |entries| && entries[q].isIntersecting
            ensures entries[q].ratio <= r.ratio
            ensures q < p + 1 + p' ==> entries[q].ratio < r.ratio
          {
            if q > p { assert entries[q] == tail[q - p - 1]; }
          }
        }
      }
    } else {
      NoneVisible(entries);
    }
  }

  /** The filter comes out empty only when no entry intersects. */
  lemma {:induction false} NoneVisible(entries: seq<Entry>)
    requires |Visible(entries)| == 0
    ensures forall q :: 0 <= q < |entries| ==> !entries[q].isIntersecting
  {
    if entries != [] {
      NoneVisible(entries[1..]);
      forall q | 0 < q < |entries|
        ensures !entries[q].isIntersecting
      {
        assert entries[q] == entries[1..][q - 1];
      }
    }
  }

  /** The index of the first link whose `href` is `target`, as `document.querySelector` finds it. */
  function FirstMatch(hrefs: seq<string>, target: string): (r: Option<nat>)
    ensures r.Some? ==>
      (r.value < |hrefs| && hrefs[r.value] == target &&
       forall j :: 0 <= j < r.value ==> hrefs[j] != target)
    ensures r.None? ==> forall j :: 0 <= j < |hrefs| ==> hrefs[j] != target
  {
    if hrefs == [] then None
    else if hrefs[0] == target then Some(0)
    else match FirstMatch(hrefs[1..], target)
      case None => None
      case Some(k) => Some(k + 1)
  }

  /** The `active` flags of the links after `updateActiveNavLink(sectionId)`. */
  function ActiveFlags(hrefs: seq<string>, sectionId: string): seq<bool>
  {
    var m := FirstMatch(hrefs, "#" + sectionId);
    seq(|hrefs|, k => m == Some(k))
  }

  /**
   * After the update, a link is active exactly when it is the first link whose
   * `href` is `#` followed by the section id; so at most one link is active, and
   * none when no link points at the section.
   */
  lemma ActiveFlagsSpec(hrefs: seq<string>, sectionId: string)
    ensures |ActiveFlags(hrefs, sectionId)| == |hrefs|
    ensures forall k :: 0 <= k < |hrefs| ==>
      (ActiveFlags(hrefs, sectionId)[k] <==>
         hrefs[k] == "#" + sectionId && forall j :: 0 <= j < k ==> hrefs[j] != "#" + sectionId)
    ensures forall k, k' :: 0 <= k < k' < |hrefs| ==> !(ActiveFlags(hrefs, sectionId)[k] && ActiveFlags(hrefs, sectionId)[k'])
  {
  }

  /** `updateActiveNavLink`: clears every link's flag, then sets the one `querySelector` finds. */
  method UpdateActiveNavLink(hrefs: seq<string>, active: array<bool>, sectionId: string)
    requires active.Length == |hrefs|
    modifies active
    ensures active[..] == ActiveFlags(hrefs, sectionId)
  {
    var i := 0;
    while i < active.Length
      invariant 0 <= i <= active.Length
      invariant forall k :: 0 <= k < i ==> !active[k]
    {
      active[i] := false;
      i := i + 1;
    }
    var target := "#" + sectionId;
    var j := 0;
    while j < |hrefs| && hrefs[j] != target
      invariant 0 <= j <= |hrefs|
      invariant forall k :: 0 <= k < j ==> hrefs[k] != target
    {
      j := j + 1;
    }
    if j < |hrefs| {
      active[j] := true;
    }
  }

  /** The observer callback: updates the links only when some entry intersects. */
  method OnIntersection(entries: seq<Entry>, hrefs: seq<string>, active: array<bool>)
    requires active.Length == |hrefs|
    modifies active
    ensures MostVisible(entries).None? ==> active[..] == old(active[..])
    ensures MostVisible(entries).Some? ==> active[..] == ActiveFlags(hrefs, MostVisible(entries).value.id)
  {
    var visible := Visible(entries);
    if |visible| > 0 {
      var mostVisible := Reduce(visible[0], visible[1..]);
      UpdateActiveNavLink(hrefs, active, mostVisible.id);
    }
  }
}
