/**
 * Active-section selection: the scan of `updateActiveNavLink` that picks the section the
 * scroll offset is in, and the rule that decides which navigation links are marked active.
 */
module ActiveNav {
  import opened Dom

  /** Pixels by which a section becomes current before its top reaches the header's bottom. */
  const PreActivationMargin: int := 10

  /** A watched section as the scan sees it: its layout and its `id` attribute. */
  datatype Section = Section(offsetTop: int, clientHeight: int, id: Attr)

  /** First scroll offset at which `s` is current. */
  function WindowTop(s: Section, headerHeight: int): int
  {
    s.offsetTop - headerHeight - PreActivationMargin
  }

  /** The offset lies in the half-open window `[WindowTop, WindowTop + clientHeight)` of `s`. */
  predicate InWindow(s: Section, headerHeight: int, offset: int)
  {
    WindowTop(s, headerHeight) <= offset < WindowTop(s, headerHeight) + s.clientHeight
  }

  /**
   * The value `current` holds after the scan: a later matching section overwrites an
   * earlier one, and `current` keeps its initial '' when nothing matches.
   */
  function CurrentId(sections: seq<Section>, headerHeight: int, offset: int): Attr
  {
    if |sections| == 0 then Str("")
    else
      var last := sections[|sections| - 1];
      if InWindow(last, headerHeight, offset) then last.id
      else CurrentId(sections[..|sections| - 1], headerHeight, offset)
  }

  /** No window contains the offset. */
  predicate NoneMatches(sections: seq<Section>, headerHeight: int, offset: int)
  {
    forall k :: 0 <= k < |sections| ==> !InWindow(sections[k], headerHeight, offset)
  }

  /** Section `k` is the last one, in document order, whose window contains the offset. */
  predicate LastMatch(sections: seq<Section>, headerHeight: int, offset: int, k: int)
  {
    && 0 <= k < |sections|
    && InWindow(sections[k], headerHeight, offset)
    && forall j :: k < j < |sections| ==> !InWindow(sections[j], headerHeight, offset)
  }

  /** The scan yields '' when no window contains the offset, and otherwise the id of the last match. */
  lemma {:induction false} CurrentIdIsLastMatch(sections: seq<Section>, headerHeight: int, offset: int)
    ensures NoneMatches(sections, headerHeight, offset) ==> CurrentId(sections, headerHeight, offset) == Str("")
    ensures forall k :: LastMatch(sections, headerHeight, offset, k) ==>
              CurrentId(sections, headerHeight, offset) == sections[k].id
  {
    if |sections| > 0 {
      var n := |sections| - 1;
      var init := sections[..n];
      CurrentIdIsLastMatch(init, headerHeight, offset);
      if InWindow(sections[n], headerHeight, offset) {
        assert !NoneMatches(sections, headerHeight, offset);
        forall k | LastMatch(sections, headerHeight, offset, k)
          ensures k == n
        {
        }
      } else {
        assert CurrentId(sections, headerHeight, offset) == CurrentId(init, headerHeight, offset);
        if NoneMatches(sections, headerHeight, offset) {
          assert NoneMatches(init, headerHeight, offset) by {
            forall k | 0 <= k < n ensures !InWindow(init[k], headerHeight, offset) {
              assert init[k] == sections[k];
            }
          }
        }
        forall k | LastMatch(sections, headerHeight, offset, k)
          ensures LastMatch(init, headerHeight, offset, k)
        {
          assert k != n;
          forall j | k < j < n ensures !InWindow(init[j], headerHeight, offset) {
            assert init[j] == sections[j];
          }
          assert init[k] == sections[k];
        }
      }
    }
  }

  /** Either no window contains the offset, or some section is the last match. */
  lemma {:induction false} SomeLastMatch(sections: seq<Section>, headerHeight: int, offset: int)
    ensures NoneMatches(sections, headerHeight, offset) || exists k :: LastMatch(sections, headerHeight, offset, k)
  {
    if |sections| > 0 {
      var n := |sections| - 1;
      if InWindow(sections[n], headerHeight, offset) {
        assert LastMatch(sections, headerHeight, offset, n);
      } else {
        var init := sections[..n];
        SomeLastMatch(init, headerHeight, offset);
        if !NoneMatches(init, headerHeight, offset) {
          var k :| LastMatch(init, headerHeight, offset, k);
          assert LastMatch(sections, headerHeight, offset, k);
        }
      }
    }
  }

  /** The windows follow each other in document order without overlapping. */
  predicate Stacked(sections: seq<Section>, headerHeight: int)
  {
    forall i, j :: 0 <= i < j < |sections| ==>
      WindowTop(sections[i], headerHeight) + sections[i].clientHeight <= WindowTop(sections[j], headerHeight)
  }

  /** No offset lies in the windows of two different sections, in whatever order they appear. */
  ghost predicate Disjoint(sections: seq<Section>, headerHeight: int)
  {
    forall i, j, y :: 0 <= i < |sections| && 0 <= j < |sections| && i != j && InWindow(sections[i], headerHeight, y) ==>
      !InWindow(sections[j], headerHeight, y)
  }

  /** Windows stacked in document order are disjoint. */
  lemma StackedIsDisjoint(sections: seq<Section>, headerHeight: int)
    requires Stacked(sections, headerHeight)
    ensures Disjoint(sections, headerHeight)
  {
  }

  /**
   * In a layout whose windows do not overlap, any offset in section `k`'s window makes `k`
   * current; a stacked layout qualifies, by `StackedIsDisjoint`.
   */
  lemma DisjointSectionIsCurrent(sections: seq<Section>, headerHeight: int, offset: int, k: int)
    requires Disjoint(sections, headerHeight)
    requires 0 <= k < |sections| && InWindow(sections[k], headerHeight, offset)
    ensures CurrentId(sections, headerHeight, offset) == sections[k].id
  {
    assert LastMatch(sections, headerHeight, offset, k);
    CurrentIdIsLastMatch(sections, headerHeight, offset);
  }

  /** The scan of `updateActiveNavLink`: one pass over the sections in document order. */
  method FindCurrent(sections: seq<Section>, headerHeight: int, offset: int) returns (current: Attr)
    ensures current == CurrentId(sections, headerHeight, offset)
  {
    current := Str("");
    for i := 0 to |sections|
      invariant current == CurrentId(sections[..i], headerHeight, offset)
    {
      var sectionTop := sections[i].offsetTop - headerHeight - PreActivationMargin;
      var sectionBottom := sectionTop + sections[i].clientHeight;
      assert sections[..i + 1][..i] == sections[..i];
      if offset >= sectionTop && offset < sectionBottom {
        current := sections[i].id;
      }
    }
    assert sections[..|sections|] == sections;
  }

  /** A link is marked active when its `href` equals `'#' + current`. */
  predicate MarksActive(href: Attr, current: Attr)
  {
    href == Str(Concat("#", current))
  }

  /** When no section's window contains the offset, exactly the links whose `href` is the bare "#" are marked. */
  lemma NoMatchMarksBareHash(sections: seq<Section>, headerHeight: int, offset: int, href: Attr)
    requires NoneMatches(sections, headerHeight, offset)
    ensures MarksActive(href, CurrentId(sections, headerHeight, offset)) <==> href == Str("#")
  {
    CurrentIdIsLastMatch(sections, headerHeight, offset);
    BareHash(Str(""));
  }

  /** A link without an `href` attribute is never marked, whatever the scan found. */
  lemma MissingHrefNeverMarked(current: Attr)
    ensures !MarksActive(Null, current)
  {
  }

  /**
   * When the last section whose window contains the offset has no `id` attribute, `current`
   * is null, so only a link to "#null" is marked.
   */
  lemma MissingIdMarksHashNull(sections: seq<Section>, headerHeight: int, offset: int, k: int, href: Attr)
    requires LastMatch(sections, headerHeight, offset, k) && sections[k].id == Null
    ensures MarksActive(href, CurrentId(sections, headerHeight, offset)) <==> href == Str("#null")
  {
    CurrentIdIsLastMatch(sections, headerHeight, offset);
  }

  /** When no two links share an `href`, at most one link is marked active. */
  lemma DistinctHrefsMarkAtMostOne(hrefs: seq<Attr>, current: Attr, i: int, j: int)
    requires forall a, b :: 0 <= a < b < |hrefs| ==> hrefs[a] != hrefs[b]
    requires 0 <= i < |hrefs| && 0 <= j < |hrefs|
    requires MarksActive(hrefs[i], current) && MarksActive(hrefs[j], current)
    ensures i == j
  {
  }
}
