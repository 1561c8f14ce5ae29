/** The structural schema walker of src/schema.rs and the grammar it decides. */
module Schema {
  import opened Wrappers
  import opened CheckedInt

  type u32 = n: nat | n <= U32_MAX

  datatype QName = QName(namespace: Option<string>, local: string)

  datatype Element = Element(qname: QName, attributes: seq<QName>, children: seq<Node>)

  datatype Node = Child(element: Element) | Text(text: string)

  datatype AttrShape = AttrShape(name: QName, required: bool)

  datatype ChildShape = ChildShape(name: QName, minOccurs: u32, shape: Option<ElementShape>)

  datatype ChildModel = Sequence(slots: seq<ChildShape>) | Choice(slots: seq<ChildShape>) | Any

  datatype ElementShape = ElementShape(name: QName, attrs: seq<AttrShape>, children: ChildModel, wildcards: seq<string>)

  /** The element children in document order. */
  function ChildElements(nodes: seq<Node>): (r: seq<Element>)
    ensures forall e :: e in r ==> exists i :: 0 <= i < |nodes| && nodes[i] == Child(e)
  {
    if nodes == [] then []
    else
      var rest := ChildElements(nodes[1..]);
      match nodes[0]
      case Child(e) => [e] + rest
      case Text(_) => rest
  }

  /** The first slot that names the child (`iter().enumerate().find`). */
  function SlotOf(name: QName, slots: seq<ChildShape>): (r: Option<nat>)
    ensures r.Some? ==> r.value < |slots| && slots[r.value].name == name
    ensures r.Some? ==> forall k :: 0 <= k < r.value ==> slots[k].name != name
    ensures r.None? ==> forall k :: 0 <= k < |slots| ==> slots[k].name != name
  {
    if slots == [] then None
    else if slots[0].name == name then Some(0)
    else match SlotOf(name, slots[1..])
      case None => None
      case Some(i) => Some(i + 1)
  }

  predicate Wildcard(name: QName, wildcards: seq<string>) {
    name.namespace.Some? && name.namespace.value in wildcards
  }

  // ---- The grammar ----

  /** How many of the children fill slot `k`. */
  function Occurrences(children: seq<Element>, slots: seq<ChildShape>, k: nat): nat {
    if children == [] then 0
    else Occurrences(children[..|children| - 1], slots, k)
         + if SlotOf(children[|children| - 1].qname, slots) == Some(k) then 1 else 0
  }

  /** Every child fills a slot or comes from a wildcard namespace. */
  predicate AllKnown(children: seq<Element>, slots: seq<ChildShape>, wildcards: seq<string>) {
    forall i :: 0 <= i < |children| ==>
      SlotOf(children[i].qname, slots).Some? || Wildcard(children[i].qname, wildcards)
  }

  /** Children that fill slots stand in slot order, whatever their namespace. */
  predicate InSlotOrder(children: seq<Element>, slots: seq<ChildShape>) {
    forall i, j :: 0 <= i < j < |children| ==>
      var a, b := SlotOf(children[i].qname, slots), SlotOf(children[j].qname, slots);
      a.Some? && b.Some? ==> a.value <= b.value
  }

  predicate EnoughOfEach(children: seq<Element>, slots: seq<ChildShape>) {
    forall k :: 0 <= k < |slots| ==> Occurrences(children, slots, k) >= slots[k].minOccurs
  }

  lemma ChildIsSmaller(parent: Element, i: nat)
    requires i < |ChildElements(parent.children)|
    ensures ChildElements(parent.children)[i] < parent
  {
    var child := ChildElements(parent.children)[i];
    var k :| 0 <= k < |parent.children| && parent.children[k] == Child(child);
    assert parent.children[k] < parent;
  }

  /** A child that fills a slot with a shape of its own conforms to that shape. */
  predicate FillsSlotWell(child: Element, slots: seq<ChildShape>)
    decreases child, 3
  {
    var slot := SlotOf(child.qname, slots);
    slot.Some? && slots[slot.value].shape.Some? ==> Conforms(child, slots[slot.value].shape.value)
  }

  predicate AllFillWell(parent: Element, slots: seq<ChildShape>)
    decreases parent, 0
  {
    forall i :: 0 <= i < |ChildElements(parent.children)| ==>
      (ChildIsSmaller(parent, i); FillsSlotWell(ChildElements(parent.children)[i], slots))
  }

  predicate HasRequiredAttributes(element: Element, attrs: seq<AttrShape>) {
    forall i :: 0 <= i < |attrs| && attrs[i].required ==> attrs[i].name in element.attributes
  }

  predicate SequenceLanguage(parent: Element, slots: seq<ChildShape>, wildcards: seq<string>)
    decreases parent, 1
  {
    var children := ChildElements(parent.children);
    && AllKnown(children, slots, wildcards)
    && InSlotOrder(children, slots)
    && EnoughOfEach(children, slots)
    && AllFillWell(parent, slots)
  }

  predicate ChoiceLanguage(parent: Element, slots: seq<ChildShape>, wildcards: seq<string>)
    decreases parent, 1
  {
    var children := ChildElements(parent.children);
    && AllKnown(children, slots, wildcards)
    && (slots == [] || exists i :: 0 <= i < |children| && SlotOf(children[i].qname, slots).Some?)
    && AllFillWell(parent, slots)
  }

  /** Membership in the language of a shape. */
  predicate Conforms(element: Element, shape: ElementShape)
    decreases element, 2
  {
    && element.qname == shape.name
    && HasRequiredAttributes(element, shape.attrs)
    && match shape.children
       case Any => true
       case Sequence(slots) => SequenceLanguage(element, slots, shape.wildcards)
       case Choice(slots) => ChoiceLanguage(element, slots, shape.wildcards)
  }

  // ---- The walker ----

  /** `u32::saturating_add(1)`. */
  function SaturatingIncrement(n: u32): u32 { if n < U32_MAX then n + 1 else U32_MAX }

  function Saturated(n: nat): u32 { if n < U32_MAX then n else U32_MAX }

  /** `cursor` is the last slot filled by the first `n` children, or 0 before any. */
  predicate IsCursor(children: seq<Element>, slots: seq<ChildShape>, n: nat, cursor: nat)
    requires n <= |children|
  {
    && (forall i :: 0 <= i < n ==>
          var a := SlotOf(children[i].qname, slots); a.Some? ==> a.value <= cursor)
    && (cursor > 0 ==> exists i :: 0 <= i < n && SlotOf(children[i].qname, slots) == Some(cursor))
  }

  /** What child `i` adds to the verdict on the first `i` children. */
  lemma WalkStep(children: seq<Element>, slots: seq<ChildShape>, wildcards: seq<string>, i: nat, cursor: nat)
    requires i < |children|
    requires AllKnown(children[..i], slots, wildcards) && InSlotOrder(children[..i], slots)
    requires IsCursor(children, slots, i, cursor)
    ensures match SlotOf(children[i].qname, slots)
            case None =>
              && (AllKnown(children[..i + 1], slots, wildcards) <==> Wildcard(children[i].qname, wildcards))
              && InSlotOrder(children[..i + 1], slots) && IsCursor(children, slots, i + 1, cursor)
            case Some(idx) =>
              && AllKnown(children[..i + 1], slots, wildcards)
              && (InSlotOrder(children[..i + 1], slots) <==> idx >= cursor)
              && (idx >= cursor ==> IsCursor(children, slots, i + 1, idx))
  {
    hide SlotOf, Wildcard;
    var shorter, longer := children[..i], children[..i + 1];
    assert longer[i] == children[i] && longer == shorter + [children[i]];
    if SlotOf(children[i].qname, slots).Some? && SlotOf(children[i].qname, slots).value < cursor {
      var k :| 0 <= k < i && SlotOf(children[k].qname, slots) == Some(cursor);
      assert longer[k] == children[k];
    }
  }

  /** A prefix that already fails condemns the whole. */
  lemma PrefixCondemns(children: seq<Element>, slots: seq<ChildShape>, wildcards: seq<string>, i: nat)
    requires i <= |children|
    ensures AllKnown(children, slots, wildcards) ==> AllKnown(children[..i], slots, wildcards)
    ensures InSlotOrder(children, slots) ==> InSlotOrder(children[..i], slots)
  {
    hide SlotOf, Wildcard;
  }

  /** The counters, saturated, of one more child. */
  function Counted(counts: seq<u32>, slot: Option<nat>): (r: seq<u32>)
    requires slot.Some? ==> slot.value < |counts|
    ensures |r| == |counts|
  {
    match slot
    case None => counts
    case Some(idx) => counts[idx := SaturatingIncrement(counts[idx])]
  }

  predicate CountsAre(counts: seq<u32>, children: seq<Element>, slots: seq<ChildShape>) {
    |counts| == |slots| && forall k :: 0 <= k < |slots| ==> counts[k] == Saturated(Occurrences(children, slots, k))
  }

  lemma CountStep(counts: seq<u32>, children: seq<Element>, slots: seq<ChildShape>, i: nat)
    requires i < |children| && CountsAre(counts, children[..i], slots)
    ensures CountsAre(Counted(counts, SlotOf(children[i].qname, slots)), children[..i + 1], slots)
  {
    hide SlotOf;
    assert children[..i + 1][..i] == children[..i];
  }

  lemma UnslottedFillsWell(child: Element, slots: seq<ChildShape>)
    requires SlotOf(child.qname, slots).None?
    ensures FillsSlotWell(child, slots)
  {
  }

  method ValidateAgainstShape(element: Element, shape: ElementShape) returns (ok: bool)
    ensures ok == Conforms(element, shape)
    decreases element, 1
  {
    if element.qname != shape.name {
      return false;
    }
    for i := 0 to |shape.attrs|
      invariant forall k :: 0 <= k < i && shape.attrs[k].required ==> shape.attrs[k].name in element.attributes
    {
      if shape.attrs[i].required && shape.attrs[i].name !in element.attributes {
        return false;
      }
    }
    match shape.children
    case Any =>
      ok := true;
    case Sequence(slots) =>
      ok := WalkSequence(element, slots, shape.wildcards);
    case Choice(slots) =>
      ok := WalkChoice(element, slots, shape.wildcards);
  }

  /** The recursion into a filled slot. */
  method ValidateChild(child: Element, slots: seq<ChildShape>, idx: nat) returns (ok: bool)
    requires SlotOf(child.qname, slots) == Some(idx)
    ensures ok == FillsSlotWell(child, slots)
    decreases child, 2
  {
    match slots[idx].shape
    case Some(sub) => ok := ValidateAgainstShape(child, sub);
    case None => ok := true;
  }

  method WalkSequence(parent: Element, slots: seq<ChildShape>, wildcards: seq<string>) returns (ok: bool)
    ensures ok == SequenceLanguage(parent, slots, wildcards)
    decreases parent, 0
  {
    hide SlotOf, FillsSlotWell, Wildcard, AllKnown, InSlotOrder, IsCursor, CountsAre, EnoughOfEach;
    var children := ChildElements(parent.children);
    var cursor := 0;
    var counts: seq<u32> := seq(|slots|, _ => 0);
    NothingWalked(children, slots, wildcards, counts);
    for i := 0 to |children|
      invariant |counts| == |slots| && CountsAre(counts, children[..i], slots)
      invariant AllKnown(children[..i], slots, wildcards) && InSlotOrder(children[..i], slots)
      invariant IsCursor(children, slots, i, cursor)
      invariant forall k :: 0 <= k < i ==> FillsSlotWell(children[k], slots)
    {
      var child := children[i];
      ChildIsSmaller(parent, i);
      WalkStep(children, slots, wildcards, i, cursor);
      CountStep(counts, children, slots, i);
      PrefixCondemns(children, slots, wildcards, i + 1);
      match SlotOf(child.qname, slots)
      case Some(idx) =>
        if idx < cursor {
          return false;
        }
        cursor := idx;
        counts := counts[idx := SaturatingIncrement(counts[idx])];
        var conforms := ValidateChild(child, slots, idx);
        if !conforms {
          return false;
        }
      case None =>
        UnslottedFillsWell(child, slots);
        if !Wildcard(child.qname, wildcards) {
          return false;
        }
    }
    assert children[..|children|] == children;
    ok := CheckMinimums(counts, children, slots);
  }

  lemma NothingWalked(children: seq<Element>, slots: seq<ChildShape>, wildcards: seq<string>, counts: seq<u32>)
    requires |counts| == |slots| && forall k :: 0 <= k < |slots| ==> counts[k] == 0
    ensures CountsAre(counts, children[..0], slots) && IsCursor(children, slots, 0, 0)
    ensures AllKnown(children[..0], slots, wildcards) && InSlotOrder(children[..0], slots)
  {
  }

  /** The comparison with `min_occurs`: a counter that stuck at `u32::MAX` compares as the true count would. */
  method CheckMinimums(counts: seq<u32>, children: seq<Element>, slots: seq<ChildShape>) returns (ok: bool)
    requires CountsAre(counts, children, slots)
    ensures ok == EnoughOfEach(children, slots)
  {
    hide Occurrences;
    for k := 0 to |slots|
      invariant forall j :: 0 <= j < k ==> Occurrences(children, slots, j) >= slots[j].minOccurs
    {
      if counts[k] < slots[k].minOccurs {
        return false;
      }
    }
    return true;
  }

  method WalkChoice(parent: Element, slots: seq<ChildShape>, wildcards: seq<string>) returns (ok: bool)
    ensures ok == ChoiceLanguage(parent, slots, wildcards)
    decreases parent, 0
  {
    hide SlotOf, FillsSlotWell, Wildcard;
    var children := ChildElements(parent.children);
    var anyMatched := false;
    for i := 0 to |children|
      invariant anyMatched <==> exists k :: 0 <= k < i && SlotOf(children[k].qname, slots).Some?
      invariant forall k :: 0 <= k < i ==> SlotOf(children[k].qname, slots).Some? || Wildcard(children[k].qname, wildcards)
      invariant forall k :: 0 <= k < i ==> FillsSlotWell(children[k], slots)
    {
      var child := children[i];
      ChildIsSmaller(parent, i);
      match SlotOf(child.qname, slots)
      case Some(idx) =>
        anyMatched := true;
        var conforms := ValidateChild(child, slots, idx);
        if !conforms {
          return false;
        }
      case None =>
        UnslottedFillsWell(child, slots);
        if !Wildcard(child.qname, wildcards) {
          return false;
        }
    }
    return anyMatched || slots == [];
  }

  // ---- The same grammar as consecutive segments ----

  /** The children cut into one stretch per slot: `cuts[k]` is where the stretch of slot `k` begins.
      Within it stand only children of that slot and wildcards; after the last, only wildcards. */
  predicate Segmented(children: seq<Element>, slots: seq<ChildShape>, wildcards: seq<string>, cuts: seq<nat>) {
    && |cuts| == |slots| + 1 && cuts[0] == 0 && cuts[|slots|] <= |children|
    && (forall j, k :: 0 <= j <= k <= |slots| ==> cuts[j] <= cuts[k])
    && (forall k, i :: 0 <= k < |slots| && cuts[k] <= i < cuts[k + 1] ==>
          BelongsTo(children[i], slots, wildcards, k))
    && (forall i :: cuts[|slots|] <= i < |children| ==>
          SlotOf(children[i].qname, slots).None? && Wildcard(children[i].qname, wildcards))
  }

  predicate BelongsTo(child: Element, slots: seq<ChildShape>, wildcards: seq<string>, k: nat) {
    match SlotOf(child.qname, slots)
    case Some(a) => a == k
    case None => Wildcard(child.qname, wildcards)
  }

  /** The first child from `from` on that fills slot `k` or a later one. */
  function FirstAtLeast(children: seq<Element>, slots: seq<ChildShape>, k: nat, from: nat): (r: nat)
    requires from <= |children|
    ensures from <= r <= |children|
    ensures forall i :: from <= i < r ==>
              var a := SlotOf(children[i].qname, slots); a.Some? ==> a.value < k
    ensures r < |children| ==> SlotOf(children[r].qname, slots).Some? && SlotOf(children[r].qname, slots).value >= k
    decreases |children| - from
  {
    if from == |children| then from
    else
      var a := SlotOf(children[from].qname, slots);
      if a.Some? && a.value >= k then from else FirstAtLeast(children, slots, k, from + 1)
  }

  function CutsOf(children: seq<Element>, slots: seq<ChildShape>): seq<nat> {
    seq(|slots| + 1, k requires 0 <= k => if k == 0 then 0 else FirstAtLeast(children, slots, k, 0))
  }

  lemma {:induction false} LaterSlotsStartLater(children: seq<Element>, slots: seq<ChildShape>, j: nat, k: nat, from: nat)
    requires j <= k && from <= |children|
    ensures FirstAtLeast(children, slots, j, from) <= FirstAtLeast(children, slots, k, from)
    decreases |children| - from
  {
    hide SlotOf;
    if from < |children| {
      var a := SlotOf(children[from].qname, slots);
      if !(a.Some? && a.value >= j) { LaterSlotsStartLater(children, slots, j, k, from + 1); }
    }
  }

  /** Between the first child of slot `k` or later and the first of a later slot, only slot `k` is filled. */
  lemma StretchHoldsItsSlot(children: seq<Element>, slots: seq<ChildShape>, wildcards: seq<string>, k: nat, i: nat)
    requires AllKnown(children, slots, wildcards) && InSlotOrder(children, slots)
    requires i < FirstAtLeast(children, slots, k + 1, 0) && (k > 0 ==> FirstAtLeast(children, slots, k, 0) <= i)
    ensures BelongsTo(children[i], slots, wildcards, k)
  {
    hide SlotOf, Wildcard, FirstAtLeast;
    if k > 0 {
      var first := FirstAtLeast(children, slots, k, 0);
      if first < i { assert SlotOf(children[first].qname, slots).value >= k; }
    }
  }

  lemma OrderedChildrenSegment(children: seq<Element>, slots: seq<ChildShape>, wildcards: seq<string>)
    requires AllKnown(children, slots, wildcards) && InSlotOrder(children, slots)
    ensures Segmented(children, slots, wildcards, CutsOf(children, slots))
  {
    hide SlotOf, Wildcard, FirstAtLeast, BelongsTo, InSlotOrder;
    var cuts := CutsOf(children, slots);
    forall j, k | 0 <= j <= k <= |slots| ensures cuts[j] <= cuts[k] {
      if j > 0 { LaterSlotsStartLater(children, slots, j, k, 0); }
    }
    forall k, i | 0 <= k < |slots| && cuts[k] <= i < cuts[k + 1] ensures BelongsTo(children[i], slots, wildcards, k) {
      StretchHoldsItsSlot(children, slots, wildcards, k, i);
    }
  }

  /** The stretch a child stands in. */
  lemma {:induction false} StretchOf(cuts: seq<nat>, n: nat, i: nat) returns (k: nat)
    requires n < |cuts| && cuts[0] <= i < cuts[n]
    ensures k < n && cuts[k] <= i < cuts[k + 1]
  {
    if i < cuts[n - 1] { k := StretchOf(cuts, n - 1, i); } else { k := n - 1; }
  }

  lemma SegmentedChildrenAreOrdered(children: seq<Element>, slots: seq<ChildShape>, wildcards: seq<string>, cuts: seq<nat>)
    requires Segmented(children, slots, wildcards, cuts)
    ensures AllKnown(children, slots, wildcards) && InSlotOrder(children, slots)
  {
    hide SlotOf, Wildcard;
    forall i | 0 <= i < |children| && i < cuts[|slots|]
      ensures exists k :: 0 <= k < |slots| && cuts[k] <= i < cuts[k + 1] && BelongsTo(children[i], slots, wildcards, k)
    {
      var k := StretchOf(cuts, |slots|, i);
      assert BelongsTo(children[i], slots, wildcards, k);
    }
    forall i, j | 0 <= i < j < |children|
                  && SlotOf(children[i].qname, slots).Some? && SlotOf(children[j].qname, slots).Some?
      ensures SlotOf(children[i].qname, slots).value <= SlotOf(children[j].qname, slots).value
    {
      var a :| 0 <= a < |slots| && cuts[a] <= i < cuts[a + 1] && BelongsTo(children[i], slots, wildcards, a);
      var b :| 0 <= b < |slots| && cuts[b] <= j < cuts[b + 1] && BelongsTo(children[j], slots, wildcards, b);
    }
  }

  /** The cursor discipline accepts exactly the child lists that fall into consecutive segments. */
  lemma OrderIsSegmentation(children: seq<Element>, slots: seq<ChildShape>, wildcards: seq<string>)
    ensures AllKnown(children, slots, wildcards) && InSlotOrder(children, slots) <==>
            exists cuts :: Segmented(children, slots, wildcards, cuts)
  {
    if AllKnown(children, slots, wildcards) && InSlotOrder(children, slots) {
      OrderedChildrenSegment(children, slots, wildcards);
    }
    if cuts :| Segmented(children, slots, wildcards, cuts) {
      SegmentedChildrenAreOrdered(children, slots, wildcards, cuts);
    }
  }

  // ---- The shape of saml:Conditions ----

  const SAML_NS: string := "urn:oasis:names:tc:SAML:2.0:assertion"

  function SamlName(local: string): QName { QName(Some(SAML_NS), local) }

  const SHAPE_AUDIENCE: ElementShape := ElementShape(SamlName("Audience"), [], Any, [])
  const SHAPE_AUDIENCE_RESTRICTION: ElementShape :=
    ElementShape(SamlName("AudienceRestriction"), [], Sequence([ChildShape(SamlName("Audience"), 1, Some(SHAPE_AUDIENCE))]), [])
  const SHAPE_ONE_TIME_USE: ElementShape := ElementShape(SamlName("OneTimeUse"), [], Sequence([]), [])
  const SHAPE_PROXY_RESTRICTION: ElementShape :=
    ElementShape(SamlName("ProxyRestriction"), [AttrShape(QName(None, "Count"), false)],
                 Sequence([ChildShape(SamlName("Audience"), 0, Some(SHAPE_AUDIENCE))]), [])
  const CONDITION_SLOTS: seq<ChildShape> := [
    ChildShape(SamlName("AudienceRestriction"), 0, Some(SHAPE_AUDIENCE_RESTRICTION)),
    ChildShape(SamlName("OneTimeUse"), 0, Some(SHAPE_ONE_TIME_USE)),
    ChildShape(SamlName("ProxyRestriction"), 0, Some(SHAPE_PROXY_RESTRICTION))]
  const SHAPE_CONDITIONS: ElementShape :=
    ElementShape(SamlName("Conditions"), [AttrShape(QName(None, "NotBefore"), false), AttrShape(QName(None, "NotOnOrAfter"), false)],
                 Sequence(CONDITION_SLOTS), [SAML_NS])

  /** Every slot of Conditions is optional, yet its children are not accepted in any order: an element
      conforms exactly when all its children are in the SAML namespace, the listed ones well formed,
      and audience restrictions, one-time use and proxy restrictions stand in that order. */
  lemma ConditionsAcceptedExactly(element: Element)
    ensures Conforms(element, SHAPE_CONDITIONS) <==>
            var children := ChildElements(element.children);
            && element.qname == SamlName("Conditions")
            && (forall i :: 0 <= i < |children| ==> children[i].qname.namespace == Some(SAML_NS))
            && InSlotOrder(children, CONDITION_SLOTS)
            && AllFillWell(element, CONDITION_SLOTS)
  {
    hide AllFillWell, InSlotOrder;
    var children := ChildElements(element.children);
    forall i | 0 <= i < |children|
      ensures SlotOf(children[i].qname, CONDITION_SLOTS).Some? || Wildcard(children[i].qname, [SAML_NS]) <==>
              children[i].qname.namespace == Some(SAML_NS)
    {
      hide ChildElements;
    }
    assert EnoughOfEach(children, CONDITION_SLOTS);
    assert AllKnown(children, CONDITION_SLOTS, [SAML_NS]) <==>
           forall i :: 0 <= i < |children| ==> children[i].qname.namespace == Some(SAML_NS);
  }

  const AUDIENCE: Element := Element(SamlName("Audience"), [], [Text("sp")])
  const RESTRICTION: Element := Element(SamlName("AudienceRestriction"), [], [Child(AUDIENCE)])
  const ONCE: Element := Element(SamlName("OneTimeUse"), [], [])

  lemma WitnessSlots()
    ensures SlotOf(RESTRICTION.qname, CONDITION_SLOTS) == Some(0)
    ensures SlotOf(ONCE.qname, CONDITION_SLOTS) == Some(1)
  {
  }

  lemma WitnessChildrenFillWell()
    ensures FillsSlotWell(ONCE, CONDITION_SLOTS) && FillsSlotWell(RESTRICTION, CONDITION_SLOTS)
  {
    hide SlotOf;
    WitnessSlots();
    assert ChildElements(ONCE.children) == [];
    assert Conforms(ONCE, SHAPE_ONE_TIME_USE);
    WitnessRestrictionConforms();
  }

  lemma WitnessRestrictionConforms()
    ensures Conforms(RESTRICTION, SHAPE_AUDIENCE_RESTRICTION)
  {
    var slots := [ChildShape(SamlName("Audience"), 1, Some(SHAPE_AUDIENCE))];
    assert ChildElements(RESTRICTION.children) == [AUDIENCE] by {
      assert ChildElements([]) == [];
    }
    assert SlotOf(AUDIENCE.qname, slots) == Some(0);
    assert [AUDIENCE][..0] == [];
    assert Occurrences([AUDIENCE], slots, 0) == 1;
    assert FillsSlotWell(AUDIENCE, slots);
    assert SequenceLanguage(RESTRICTION, slots, []);
  }

  /** The witness: a one-time-use marker before an audience restriction is refused, after it accepted. */
  lemma ConditionsOrderMatters()
    ensures !Conforms(Element(SamlName("Conditions"), [], [Child(ONCE), Child(RESTRICTION)]), SHAPE_CONDITIONS)
    ensures Conforms(Element(SamlName("Conditions"), [], [Child(RESTRICTION), Child(ONCE)]), SHAPE_CONDITIONS)
  {
    hide SlotOf, Conforms, FillsSlotWell;
    var bad := Element(SamlName("Conditions"), [], [Child(ONCE), Child(RESTRICTION)]);
    var good := Element(SamlName("Conditions"), [], [Child(RESTRICTION), Child(ONCE)]);
    WitnessSlots();
    WitnessChildrenFillWell();
    ConditionsAcceptedExactly(bad);
    ConditionsAcceptedExactly(good);
    TwoChildren(ONCE, RESTRICTION);
    TwoChildren(RESTRICTION, ONCE);
    var children := ChildElements(bad.children);
    assert children[0] == ONCE && children[1] == RESTRICTION;
  }

  lemma TwoChildren(a: Element, b: Element)
    ensures ChildElements([Child(a), Child(b)]) == [a, b]
  {
    assert [Child(a), Child(b)][1..] == [Child(b)] && [Child(b)][1..] == [];
    assert ChildElements([Child(b)]) == [b] + ChildElements([]);
  }
}
