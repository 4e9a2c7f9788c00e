/**
 * The modal controller of the page (class ExpansionSystem in
 * src/js/animations.js).
 *
 * The page is reduced to the state the controller reads or writes: the
 * in-page panels (`.expansion-overlay` elements with an id) and whether
 * each is `active`; the shared fallback overlay, its `active` flag and what
 * its body holds; the body's `modal-open` class and `overflow: hidden`
 * style; the set of topic cards marked `clicked`; and how many delayed
 * scroll restorations are still to fire. HTML fragments are opaque values.
 */
module Expansion {

  /** A topic card, named by its position among the `.expandable-card`
      elements. */
  type CardId = nat

  /** What the fallback overlay's body holds: nothing yet, the fragment
      authored for a topic, or the "Conteúdo não encontrado" placeholder. */
  datatype Html = Blank | Fragment(topic: string) | NotFound

  /** The static topic table of getExpansionContent: one authored fragment
      per key. */
  const ContentTable: map<string, Html> := map[
    "ask-mode" := Fragment("ask-mode"),
    "edit-mode" := Fragment("edit-mode"),
    "agent-mode" := Fragment("agent-mode"),
    "setup-automatico" := Fragment("setup-automatico"),
    "testes-inteligentes" := Fragment("testes-inteligentes"),
    "debug-automatico" := Fragment("debug-automatico"),
    "produtividade-estudo" := Fragment("produtividade-estudo"),
    "debug-estudo" := Fragment("debug-estudo"),
    "ci-estudo" := Fragment("ci-estudo"),
    "github-copilot" := Fragment("github-copilot"),
    "google-gemini" := Fragment("google-gemini"),
    "claude-sonnet" := Fragment("claude-sonnet"),
    "chatgpt" := Fragment("chatgpt"),
    "cursor-ai" := Fragment("cursor-ai"),
    "perplexity-ai" := Fragment("perplexity-ai")
  ]

  /** getExpansionContent: the topic's own fragment when the table has the
      key, and the placeholder exactly when it does not. */
  function GetExpansionContent(key: string): (h: Html)
    ensures h != Blank
    ensures h == NotFound <==> key !in ContentTable
    ensures h.Fragment? ==> h.topic == key
  {
    if key in ContentTable then ContentTable[key] else NotFound
  }

  /** The controller's whole state. */
  datatype Modal = Modal(
    panels: map<string, bool>,
    overlayActive: bool,
    overlayBody: Html,
    modalOpen: bool,
    overflowHidden: bool,
    clicked: set<CardId>,
    pendingRestores: nat)

  /** Inputs that drive the controller. */
  datatype Event = OpenEvent(key: string) | CloseEvent | RestoreTimerEvent | CardClickEvent(card: CardId, key: string)

  /** Every panel deactivated, the ids kept. */
  function AllInactive(panels: map<string, bool>): map<string, bool>
  {
    map k | k in panels :: false
  }

  ghost predicate AnyPanelActive(panels: map<string, bool>)
  {
    exists k :: k in panels && panels[k]
  }

  /** openExpansion(key): a panel with that id is activated and the body
      locked, leaving the fallback overlay alone; otherwise the fallback
      overlay receives the table's fragment (or the placeholder), is
      activated, and the body is locked. */
  function Open(m: Modal, key: string): Modal
  {
    if key in m.panels then
      m.(panels := m.panels[key := true], modalOpen := true, overflowHidden := true)
    else
      m.(overlayBody := GetExpansionContent(key), overlayActive := true, modalOpen := true, overflowHidden := true)
  }

  /** closeExpansion: deactivate every panel and the fallback overlay, drop
      `modal-open`, unmark the clicked cards, and schedule one scroll
      restoration for 400 ms later. */
  function Close(m: Modal): Modal
  {
    m.(panels := AllInactive(m.panels), overlayActive := false, modalOpen := false,
       clicked := {}, pendingRestores := m.pendingRestores + 1)
  }

  /** One scheduled scroll restoration fires: `overflow` is cleared,
      whatever is open at that moment. */
  function RestoreScroll(m: Modal): Modal
    requires m.pendingRestores > 0
  {
    m.(overflowHidden := false, pendingRestores := m.pendingRestores - 1)
  }

  /** A click on a topic card whose key is not empty marks the card
      `clicked` and opens its expansion. */
  function ClickCard(m: Modal, card: CardId, key: string): Modal
  {
    if key == "" then m else Open(m.(clicked := m.clicked + {card}), key)
  }

  function Step(m: Modal, e: Event): Modal
  {
    match e
    case OpenEvent(key) => Open(m, key)
    case CloseEvent => Close(m)
    case RestoreTimerEvent => if m.pendingRestores > 0 then RestoreScroll(m) else m
    case CardClickEvent(card, key) => ClickCard(m, card, key)
  }

  function Run(m: Modal, events: seq<Event>): Modal
    decreases |events|
  {
    if events == [] then m else Run(Step(m, events[0]), events[1..])
  }

  /** The page as the controller first sees it, given the ids of the
      in-page panels: nothing open, nothing clicked, no timer pending. */
  function Initial(ids: set<string>): Modal
  {
    Modal(map k | k in ids :: false, false, Blank, false, false, {}, 0)
  }

  /** `modal-open` is on exactly when some panel or the fallback overlay is
      active, and a card is marked clicked only while a modal is open. */
  ghost predicate Coherent(m: Modal)
  {
    && (m.modalOpen <==> m.overlayActive || AnyPanelActive(m.panels))
    && (m.clicked != {} ==> m.modalOpen)
  }

  // ----- Single operations -----

  /** The three branches of openExpansion as the page sees them. */
  lemma OpenEffect(m: Modal, key: string)
    ensures Open(m, key).modalOpen && Open(m, key).overflowHidden
    ensures Open(m, key).clicked == m.clicked && Open(m, key).pendingRestores == m.pendingRestores
    ensures key in m.panels ==>
      Open(m, key).panels == m.panels[key := true]
      && Open(m, key).overlayActive == m.overlayActive && Open(m, key).overlayBody == m.overlayBody
    ensures key !in m.panels ==>
      Open(m, key).panels == m.panels && Open(m, key).overlayActive
    ensures key !in m.panels && key in ContentTable ==> Open(m, key).overlayBody == Fragment(key)
    ensures key !in m.panels && key !in ContentTable ==> Open(m, key).overlayBody == NotFound
  {
  }

  /** Opening is additive: a second panel does not close the first. */
  lemma OpenIsAdditive(m: Modal, a: string, b: string)
    requires a in m.panels && b in m.panels
    ensures Open(Open(m, a), b).panels[a] && Open(Open(m, a), b).panels[b]
  {
  }

  /** closeExpansion leaves no panel and no overlay active, no card
      clicked, `modal-open` removed, and the panel ids unchanged. */
  lemma CloseEffect(m: Modal)
    ensures !AnyPanelActive(Close(m).panels) && !Close(m).overlayActive
    ensures !Close(m).modalOpen && Close(m).clicked == {}
    ensures Close(m).panels.Keys == m.panels.Keys
    ensures Coherent(Close(m))
  {
  }

  /** After closeExpansion and its delayed restoration, the body's inline
      `overflow: hidden` is cleared and nothing is active, however many
      panels were open. */
  lemma CloseThenRestoreUnlocks(m: Modal)
    ensures !RestoreScroll(Close(m)).overflowHidden
    ensures !AnyPanelActive(RestoreScroll(Close(m)).panels) && !RestoreScroll(Close(m)).overlayActive
  {
  }

  /** A restoration scheduled by an earlier close still fires when a
      modal has been reopened within the 400 ms: `modal-open` is on while the
      body's inline `overflow: hidden` is cleared. */
  lemma LateRestoreUnlocksReopenedModal(m: Modal, key: string)
    ensures var r := RestoreScroll(Open(Close(Open(m, key)), key));
      r.modalOpen && !r.overflowHidden
  {
  }

  /** openExpansion keeps Coherent. */
  lemma OpenKeepsCoherent(m: Modal, key: string)
    requires Coherent(m)
    ensures Coherent(Open(m, key))
  {
    if key in m.panels {
      var p := Open(m, key).panels;
      assert key in p && p[key];
    }
  }

  /** Every step keeps Coherent. */
  lemma StepKeepsCoherent(m: Modal, e: Event)
    requires Coherent(m)
    ensures Coherent(Step(m, e))
  {
    match e {
      case OpenEvent(key) => OpenKeepsCoherent(m, key);
      case CloseEvent => CloseEffect(m);
      case RestoreTimerEvent =>
      case CardClickEvent(card, key) =>
        if key != "" {
          OpenKeepsCoherent(m, key);
        }
    }
  }

  /** From the initial page, every sequence of opens, closes, timer firings
      and card clicks keeps Coherent. */
  lemma {:induction false} RunKeepsCoherent(m: Modal, events: seq<Event>)
    requires Coherent(m)
    ensures Coherent(Run(m, events))
    decreases |events|
  {
    if events != [] {
      StepKeepsCoherent(m, events[0]);
      RunKeepsCoherent(Step(m, events[0]), events[1..]);
    }
  }

  lemma InitialIsCoherent(ids: set<string>)
    ensures Coherent(Initial(ids))
  {
  }

  // ----- The page object -----

  class ExpansionSystem {
    var panels: map<string, bool>
    var overlayActive: bool
    var overlayBody: Html
    var modalOpen: bool
    var overflowHidden: bool
    var clicked: set<CardId>
    var pendingRestores: nat

    ghost function State(): Modal
      reads this
    {
      Modal(panels, overlayActive, overlayBody, modalOpen, overflowHidden, clicked, pendingRestores)
    }

    /** new ExpansionSystem(): creates the empty fallback overlay. */
    constructor (panelIds: set<string>)
      ensures State() == Initial(panelIds)
    {
      panels := map k | k in panelIds :: false;
      overlayActive := false;
      overlayBody := Blank;
      modalOpen := false;
      overflowHidden := false;
      clicked := {};
      pendingRestores := 0;
    }

    method OpenExpansion(key: string)
      modifies this
      ensures State() == Open(old(State()), key)
    {
      if key in panels {
        panels := panels[key := true];
        modalOpen := true;
        overflowHidden := true;
      } else {
        var content := GetExpansionContent(key);
        overlayBody := content;
        overlayActive := true;
        modalOpen := true;
        overflowHidden := true;
      }
    }

    /** closeExpansion: deactivate each active panel in turn, then the
        fallback overlay; drop `modal-open`; unmark each clicked card; and
        schedule the scroll restoration. */
    method CloseExpansion()
      modifies this
      ensures State() == Close(old(State()))
    {
      var active := set k | k in panels && panels[k];
      while active != {}
        modifies this`panels
        invariant panels.Keys == old(panels.Keys)
        invariant forall k :: k in panels && panels[k] ==> k in active
        decreases active
      {
        var k :| k in active;
        panels := panels[k := false];
        active := active - {k};
      }
      assert panels == AllInactive(old(panels));
      overlayActive := false;
      modalOpen := false;
      while clicked != {}
        modifies this`clicked
        decreases clicked
      {
        var c :| c in clicked;
        clicked := clicked - {c};
      }
      pendingRestores := pendingRestores + 1;
    }

    /** The 400 ms timer scheduled by closeExpansion fires. */
    method ScrollRestoreTimer()
      requires pendingRestores > 0
      modifies this
      ensures State() == RestoreScroll(old(State()))
    {
      overflowHidden := false;
      pendingRestores := pendingRestores - 1;
    }

    /** The click handler bound to each topic card: mark it clicked and
        open its expansion (the 200 ms animation delay is collapsed). */
    method CardClicked(card: CardId, key: string)
      modifies this
      ensures State() == ClickCard(old(State()), card, key)
    {
      if key != "" {
        clicked := clicked + {card};
        OpenExpansion(key);
      }
    }
  }
}
