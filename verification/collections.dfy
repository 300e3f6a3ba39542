/** The collections grid and its detail modal (src/components/Collections.tsx).

    The DOM is abstracted to indices: cards are identified by their position in the
    collections table, the modal's focusable elements by their position in document
    order (the close button is the first), and `document.activeElement` by a `Focus`
    value. Body scroll locking is the `overflow` field. */
module Collections {
  import opened Common

  datatype Collection = Collection(id: int, name: string, subtitle: string)

  /** The four collections shown as cards, in grid order. */
  const Table: seq<Collection> := [
    Collection(1, "Jadau Setting", "Heritage Collection"),
    Collection(2, "Kundan Polki", "Bridal Essentials"),
    Collection(3, "The Borla", "Royal Ornament"),
    Collection(4, "Thewa Art", "Signature Collection")
  ]

  /** Ids are positive (so truthy) and tell the collections apart. */
  lemma TableIdsPositiveAndDistinct()
    ensures forall i :: 0 <= i < |Table| ==> Table[i].id >= 1
    ensures forall i, j :: 0 <= i < |Table| && 0 <= j < |Table| && Table[i].id == Table[j].id ==> i == j
  {
  }

  /** `collections.findIndex(c => c.id === id)` over `cs`, starting the search at `from`. */
  function FindIndexFrom(cs: seq<Collection>, id: int, from: nat): (k: int)
    requires from <= |cs|
    ensures k == -1 || from <= k < |cs|
    ensures k == -1 <==> forall i :: from <= i < |cs| ==> cs[i].id != id
    ensures k != -1 ==> cs[k].id == id && forall i :: from <= i < k ==> cs[i].id != id
    decreases |cs| - from
  {
    if from == |cs| then -1
    else if cs[from].id == id then from
    else FindIndexFrom(cs, id, from + 1)
  }

  function FindIndex(id: int): (k: int)
    ensures k == -1 || 0 <= k < |Table|
    ensures k == -1 <==> forall i :: 0 <= i < |Table| ==> Table[i].id != id
    ensures k != -1 ==> Table[k].id == id
  {
    FindIndexFrom(Table, id, 0)
  }

  /** Because ids are distinct, looking up a card's own id finds that card. */
  lemma FindIndexOfCard(i: nat)
    requires i < |Table|
    ensures FindIndex(Table[i].id) == i
  {
    TableIdsPositiveAndDistinct();
  }

  /** `collections.filter(c => c.id === id)`: the collections the modal body shows. */
  function WithId(cs: seq<Collection>, id: int): (r: seq<Collection>)
    ensures |r| <= |cs|
    ensures forall k :: 0 <= k < |r| ==> r[k].id == id && r[k] in cs
    ensures forall c :: c in cs && c.id == id ==> c in r
  {
    if |cs| == 0 then []
    else (if cs[0].id == id then [cs[0]] else []) + WithId(cs[1..], id)
  }

  /** The modal is rendered under `{selectedCol && ...}`: a selection whose id is truthy. */
  function ModalRendered(selected: Option<int>): (b: bool)
    ensures b ==> selected.Some?
    ensures selected.Some? && selected.value >= 1 ==> b
  {
    match selected
    case None => false
    case Some(id) => id != 0
  }

  function Shown(selected: Option<int>): (r: seq<Collection>)
    ensures selected.None? ==> r == []
    ensures forall k :: 0 <= k < |r| ==> selected.Some? && r[k].id == selected.value && r[k] in Table
    ensures forall c :: selected.Some? && c in Table && c.id == selected.value ==> c in r
  {
    match selected
    case None => []
    case Some(id) => WithId(Table, id)
  }

  datatype Focus =
    | Card(index: nat)
    | ModalItem(index: nat)
    | Elsewhere

  datatype Overflow = Hidden | Unset

  datatype Modal = Modal(selected: Option<int>, focus: Focus, overflow: Overflow)

  const Closed: Modal := Modal(None, Elsewhere, Unset)

  /** The scroll-lock effect, re-run after the selection changes: its cleanup resets
      `overflow` to `unset` and its body sets `hidden` while a collection is selected. */
  function ScrollLock(m: Modal): (r: Modal)
    ensures r.overflow == Hidden <==> m.selected.Some?
    ensures r.selected == m.selected && r.focus == m.focus
  {
    m.(overflow := if m.selected.Some? then Hidden else Unset)
  }

  /** `openModal(id)`. */
  function OpenModal(m: Modal, id: int): (r: Modal)
    ensures r.selected == Some(id)
    ensures r.focus == m.focus
    ensures r.overflow == Hidden
  {
    ScrollLock(m.(selected := Some(id)))
  }

  /** `closeModal()`: clear the selection and, if the previously selected id belongs to
      a card, move focus back to that card. */
  function CloseModal(m: Modal): (r: Modal)
    ensures r.selected == None
    ensures r.overflow == Unset
    ensures m.selected.Some? && FindIndex(m.selected.value) != -1 ==>
              r.focus == Card(FindIndex(m.selected.value)) && Table[r.focus.index].id == m.selected.value
    ensures m.selected.None? || FindIndex(m.selected.value) == -1 ==> r.focus == m.focus
  {
    var focus :=
      match m.selected
      case None => m.focus
      case Some(prev) =>
        var index := FindIndex(prev);
        if index != -1 then Card(index) else m.focus;
    ScrollLock(m.(selected := None, focus := focus))
  }

  /** The outcome of a key handler: the new state and whether it called `preventDefault`. */
  datatype Handled = Handled(modal: Modal, prevented: bool)

  /** A key pressed on card `i`: Enter or Space opens that card's collection. */
  function CardKey(m: Modal, i: nat, key: string): (h: Handled)
    requires i < |Table|
    ensures key == "Enter" || key == " " ==> h.prevented && h.modal.selected == Some(Table[i].id)
    ensures key != "Enter" && key != " " ==> h == Handled(m, false)
  {
    if key == "Enter" || key == " " then Handled(OpenModal(m, Table[i].id), true)
    else Handled(m, false)
  }

  /** The document `keydown` listener, attached only while a collection is selected.
      `count` is the number of focusable elements inside the rendered modal. */
  function DocumentKey(m: Modal, key: string, shift: bool, count: nat): (h: Handled)
    ensures m.selected.None? ==> h == Handled(m, false)
    ensures m.selected.Some? && key == "Escape" ==> h == Handled(CloseModal(m), false)
    ensures key != "Escape" && key != "Tab" ==> h == Handled(m, false)
    ensures h.prevented <==>
              && m.selected.Some? && ModalRendered(m.selected) && key == "Tab" && count > 0
              && m.focus == (if shift then ModalItem(0) else ModalItem(count - 1))
    ensures h.prevented ==> h.modal == m.(focus := if shift then ModalItem(count - 1) else ModalItem(0))
    ensures !h.prevented && key != "Escape" ==> h.modal == m
  {
    if m.selected.None? then Handled(m, false)
    else if key == "Escape" then Handled(CloseModal(m), false)
    else if key == "Tab" && ModalRendered(m.selected) && count > 0 then
      var first := ModalItem(0);
      var last := ModalItem(count - 1);
      if shift then
        if m.focus == first then Handled(m.(focus := last), true) else Handled(m, false)
      else
        if m.focus == last then Handled(m.(focus := first), true) else Handled(m, false)
    else Handled(m, false)
  }

  /** The 100 ms timer set when a collection is selected: focus the close button,
      the modal's first focusable element, if the modal is still rendered. */
  function FocusCloseButton(m: Modal): (r: Modal)
    ensures ModalRendered(m.selected) ==> r == m.(focus := ModalItem(0))
    ensures !ModalRendered(m.selected) ==> r == m
  {
    if ModalRendered(m.selected) then m.(focus := ModalItem(0)) else m
  }

  /** Unmounting the section runs the effect cleanup, which releases the scroll lock. */
  function Unmount(m: Modal): (r: Modal)
    ensures r.overflow == Unset
  {
    m.(overflow := Unset)
  }

  datatype Event =
    | CardClick(card: nat)
    | CardKeyDown(card: nat, key: string)
    | KeyDown(key: string, shift: bool, count: nat)
    | CloseClick
    | FocusTimer

  predicate WellFormed(e: Event) {
    match e
    case CardClick(i) => i < |Table|
    case CardKeyDown(i, _) => i < |Table|
    case _ => true
  }

  function Step(m: Modal, e: Event): Modal
    requires WellFormed(e)
  {
    match e
    case CardClick(i) => OpenModal(m, Table[i].id)
    case CardKeyDown(i, key) => CardKey(m, i, key).modal
    case KeyDown(key, shift, count) => DocumentKey(m, key, shift, count).modal
    case CloseClick => CloseModal(m)
    case FocusTimer => FocusCloseButton(m)
  }

  function Run(m: Modal, es: seq<Event>): Modal
    requires forall k :: 0 <= k < |es| ==> WellFormed(es[k])
    decreases |es|
  {
    if |es| == 0 then m else Run(Step(m, es[0]), es[1..])
  }

  /** What holds of every reachable modal state: the body scroll is locked exactly while a
      collection is selected, and a selection is always the id of one of the cards. */
  ghost predicate Valid(m: Modal) {
    && (m.overflow == Hidden <==> m.selected.Some?)
    && (m.selected.Some? ==> FindIndex(m.selected.value) != -1)
  }

  /** The section mounts with nothing selected and the body scroll free. */
  lemma ClosedValid()
    ensures Valid(Closed)
    ensures !ModalRendered(Closed.selected) && Shown(Closed.selected) == []
  {
  }

  lemma StepValid(m: Modal, e: Event)
    requires WellFormed(e)
    requires Valid(m)
    ensures Valid(Step(m, e))
  {
    match e
    case CardClick(i) => FindIndexOfCard(i);
    case CardKeyDown(i, key) => FindIndexOfCard(i);
    case KeyDown(key, shift, count) =>
    case CloseClick =>
    case FocusTimer =>
  }

  lemma {:induction false} RunValid(m: Modal, es: seq<Event>)
    requires forall k :: 0 <= k < |es| ==> WellFormed(es[k])
    requires Valid(m)
    ensures Valid(Run(m, es))
    decreases |es|
  {
    if |es| > 0 {
      StepValid(m, es[0]);
      RunValid(Step(m, es[0]), es[1..]);
    }
  }

  /** From the mounted section, after any events, the body scroll is locked exactly while
      the modal is on screen. */
  lemma ScrollLockedIffRendered(es: seq<Event>)
    requires forall k :: 0 <= k < |es| ==> WellFormed(es[k])
    ensures Run(Closed, es).overflow == Hidden <==> ModalRendered(Run(Closed, es).selected)
  {
    ClosedValid();
    RunValid(Closed, es);
    RenderedIffSelected(Run(Closed, es));
  }

  /** In every reachable state the modal is on screen exactly when a collection is
      selected, and then it shows exactly that one collection. */
  lemma RenderedIffSelected(m: Modal)
    requires Valid(m)
    ensures ModalRendered(m.selected) <==> m.selected.Some?
    ensures m.selected.Some? ==> Shown(m.selected) == [Table[FindIndex(m.selected.value)]]
    ensures m.selected.None? ==> Shown(m.selected) == []
  {
    TableIdsPositiveAndDistinct();
    if m.selected.Some? {
      var id := m.selected.value;
      var k := FindIndex(id);
      assert Table[k].id == id;
      assert k == 0 || k == 1 || k == 2 || k == 3;
    }
  }

  /** Opening a card and then closing the modal, by Escape or the close button, hands
      focus back to the card that opened it and releases the scroll lock. */
  lemma CloseRestoresFocusToCard(m: Modal, i: nat)
    requires i < |Table|
    ensures CloseModal(OpenModal(m, Table[i].id)).focus == Card(i)
    ensures DocumentKey(OpenModal(m, Table[i].id), "Escape", false, 0).modal.focus == Card(i)
    ensures CloseModal(OpenModal(m, Table[i].id)).overflow == Unset
  {
    FindIndexOfCard(i);
  }

  /** Tab from the last element wraps to the first and Shift+Tab from there wraps back:
      the focus trap's two wraps undo each other. */
  lemma TabWrapsUndo(m: Modal, count: nat)
    requires m.selected.Some? && ModalRendered(m.selected)
    requires count > 0
    requires m.focus == ModalItem(count - 1)
    ensures DocumentKey(m, "Tab", false, count).modal.focus == ModalItem(0)
    ensures DocumentKey(DocumentKey(m, "Tab", false, count).modal, "Tab", true, count).modal == m
  {
  }
}
