/**
 * Expanding and collapsing the plain example cards of the page: the global
 * functions toggleExample and closeExample installed by
 * CardManager.setupCardInteractions, and AnimationManager's
 * closeAllExpandedCards (bound to the Escape key).
 *
 * Each `.example-card` on the page is reduced to one flag: whether it has
 * the `expanded` class. A card is named by its position among them.
 */
module Cards {

  /** toggleExample(c): every other card collapses, and card `c` flips. */
  function Toggled(s: seq<bool>, c: nat): seq<bool>
    requires c < |s|
  {
    seq(|s|, j requires 0 <= j < |s| => j == c && !s[c])
  }

  /** closeAllExpandedCards: every card collapsed. */
  function Collapsed(n: nat): seq<bool>
  {
    seq(n, _ => false)
  }

  /** How many cards are expanded. */
  function ExpandedCount(s: seq<bool>): (k: nat)
    ensures k <= |s|
    ensures k == 0 <==> forall j :: 0 <= j < |s| ==> !s[j]
  {
    if s == [] then 0
    else ExpandedCount(s[..|s| - 1]) + (if s[|s| - 1] then 1 else 0)
  }

  /** No two distinct cards are expanded together. */
  ghost predicate AtMostOne(s: seq<bool>)
  {
    forall i, j :: 0 <= i < |s| && 0 <= j < |s| && s[i] && s[j] ==> i == j
  }

  /** "At most one card is expanded", counted, is the same as "no two
      distinct cards are expanded". */
  lemma {:induction false} AtMostOneByCount(s: seq<bool>)
    ensures ExpandedCount(s) <= 1 <==> AtMostOne(s)
  {
    if s != [] {
      var n := |s|;
      var t := s[..n - 1];
      AtMostOneByCount(t);
      assert forall j :: 0 <= j < n - 1 ==> s[j] == t[j];
      if s[n - 1] {
        if ExpandedCount(s) <= 1 {
          assert ExpandedCount(t) == 0;
        } else {
          assert ExpandedCount(t) >= 1;
          var k :| 0 <= k < |t| && t[k];
          assert s[k] && s[n - 1] && k != n - 1;
        }
      } else {
        assert AtMostOne(s) <==> AtMostOne(t) by {
          if AtMostOne(t) {
            forall i, j | 0 <= i < n && 0 <= j < n && s[i] && s[j] ensures i == j {
              assert i < n - 1 && j < n - 1;
              assert t[i] && t[j];
            }
          }
        }
      }
    }
  }

  /** When no card other than `c` is expanded, the count is 1 or 0
      according to card `c`. */
  lemma {:induction false} CountOfOnlyCandidate(s: seq<bool>, c: nat)
    requires c < |s|
    requires forall j :: 0 <= j < |s| && j != c ==> !s[j]
    ensures ExpandedCount(s) == if s[c] then 1 else 0
  {
    var n := |s|;
    var t := s[..n - 1];
    assert forall j :: 0 <= j < n - 1 ==> s[j] == t[j];
    if c < n - 1 {
      CountOfOnlyCandidate(t, c);
    } else {
      assert ExpandedCount(t) == 0;
    }
  }

  /** Collapsing card `c` lowers the count by one exactly when `c` was
      expanded, and leaves it otherwise. */
  lemma {:induction false} CountAfterClose(s: seq<bool>, c: nat)
    requires c < |s|
    ensures ExpandedCount(s[c := false]) == ExpandedCount(s) - (if s[c] then 1 else 0)
  {
    var n := |s|;
    var u := s[c := false];
    assert u[..n - 1] == if c < n - 1 then s[..n - 1][c := false] else s[..n - 1];
    if c < n - 1 {
      CountAfterClose(s[..n - 1], c);
    }
  }

  /** toggleExample(c) leaves every other card collapsed and flips `c`: a
      collapsed card becomes the only expanded one, an expanded card closes
      and none is left. Either way at most one card is expanded. */
  lemma ToggleEffect(s: seq<bool>, c: nat)
    requires c < |s|
    ensures Toggled(s, c)[c] == !s[c]
    ensures forall j :: 0 <= j < |s| && j != c ==> !Toggled(s, c)[j]
    ensures ExpandedCount(Toggled(s, c)) == if s[c] then 0 else 1
    ensures AtMostOne(Toggled(s, c))
  {
    CountOfOnlyCandidate(Toggled(s, c), c);
    AtMostOneByCount(Toggled(s, c));
  }

  /** Toggling the same card twice from a page where only that card may be
      expanded restores the page. */
  lemma ToggleTwice(s: seq<bool>, c: nat)
    requires c < |s|
    requires forall j :: 0 <= j < |s| && j != c ==> !s[j]
    ensures Toggled(Toggled(s, c), c) == s
  {
  }

  /** closeExample(c) keeps the invariant "at most one card expanded". */
  lemma CloseKeepsAtMostOne(s: seq<bool>, c: nat)
    requires c < |s| && AtMostOne(s)
    ensures AtMostOne(s[c := false])
    ensures ExpandedCount(s[c := false]) <= ExpandedCount(s)
  {
    AtMostOneByCount(s);
    CountAfterClose(s, c);
    AtMostOneByCount(s[c := false]);
  }

  /** closeAllExpandedCards leaves no card expanded. */
  lemma CloseAllLeavesNone(n: nat)
    ensures ExpandedCount(Collapsed(n)) == 0
  {
  }

  /** The example cards of the page. */
  class ExampleCards {
    const expanded: array<bool>

    constructor (page: seq<bool>)
      ensures expanded[..] == page && fresh(expanded)
    {
      expanded := new bool[|page|](j requires 0 <= j < |page| => page[j]);
    }

    /** window.toggleExample(card): read whether `card` is expanded, remove
        `expanded` from every other expanded card, then flip `card`. The
        scroll that follows an expansion is not modelled. */
    method ToggleExample(card: nat)
      requires card < expanded.Length
      modifies expanded
      ensures expanded[..] == Toggled(old(expanded[..]), card)
    {
      var isExpanded := expanded[card];
      for k := 0 to expanded.Length
        invariant expanded[card] == isExpanded
        invariant forall j :: 0 <= j < k && j != card ==> !expanded[j]
        invariant forall j :: k <= j < expanded.Length ==> expanded[j] == old(expanded[j])
      {
        if expanded[k] && k != card {
          expanded[k] := false;
        }
      }
      if isExpanded {
        expanded[card] := false;
      } else {
        expanded[card] := true;
      }
    }

    /** window.closeExample(card): collapse that card only. */
    method CloseExample(card: nat)
      requires card < expanded.Length
      modifies expanded
      ensures expanded[..] == old(expanded[..])[card := false]
    {
      expanded[card] := false;
    }

    /** AnimationManager.closeAllExpandedCards: collapse every expanded card. */
    method CloseAllExpandedCards()
      modifies expanded
      ensures expanded[..] == Collapsed(expanded.Length)
    {
      for k := 0 to expanded.Length
        invariant forall j :: 0 <= j < k ==> !expanded[j]
      {
        if expanded[k] {
          expanded[k] := false;
        }
      }
    }
  }
}
