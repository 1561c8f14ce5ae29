/** Where a `<ds:Signature>` may stand in a Response (`enforce_signature_positions` of src/response/validate.rs). */
module SignaturePositions {
  import opened Wrappers
  import opened Schema

  const DS_NS: string := "http://www.w3.org/2000/09/xmldsig#"
  const SAMLP_NS: string := "urn:oasis:names:tc:SAML:2.0:protocol"

  predicate IsSignature(e: Element) { e.qname == QName(Some(DS_NS), "Signature") }

  /** The three elements a signature may be a direct child of. */
  predicate MayBear(name: QName) {
    name in {QName(Some(SAMLP_NS), "Response"), SamlName("Assertion"), SamlName("EncryptedAssertion")}
  }

  /** The walk of the source: it stops at a signature, well placed or not, and never looks inside one. */
  predicate WalkAccepts(e: Element, parent: Option<QName>) {
    if IsSignature(e) then parent.Some? && MayBear(parent.value)
    else
      var children := ChildElements(e.children);
      forall i :: 0 <= i < |children| ==> (ChildIsSmaller(e, i); WalkAccepts(children[i], Some(e.qname)))
  }

  // ---- The positions themselves ----

  /** The path, child by child, leads from `e` to a signature and passes through no other. */
  predicate LeadsToSignature(e: Element, path: seq<nat>)
    decreases path
  {
    if path == [] then IsSignature(e)
    else
      var children := ChildElements(e.children);
      !IsSignature(e) && path[0] < |children| && LeadsToSignature(children[path[0]], path[1..])
  }

  /** The name of the last element the path passes through before its end; `parent` if it is empty. */
  function Bearer(e: Element, parent: Option<QName>, path: seq<nat>): Option<QName>
    requires LeadsToSignature(e, path)
    decreases path
  {
    if path == [] then parent else Bearer(ChildElements(e.children)[path[0]], Some(e.qname), path[1..])
  }

  /** Every signature outside another signature is a direct child of an element that may bear one. */
  ghost predicate SignaturesPlaced(e: Element, parent: Option<QName>) {
    forall path :: LeadsToSignature(e, path) ==>
      Bearer(e, parent, path).Some? && MayBear(Bearer(e, parent, path).value)
  }

  lemma {:induction false} WalkedIsPlaced(e: Element, parent: Option<QName>, path: seq<nat>)
    requires WalkAccepts(e, parent) && LeadsToSignature(e, path)
    ensures Bearer(e, parent, path).Some? && MayBear(Bearer(e, parent, path).value)
    decreases path
  {
    hide MayBear, IsSignature;
    if path != [] {
      var child := ChildElements(e.children)[path[0]];
      assert WalkAccepts(child, Some(e.qname));
      WalkedIsPlaced(child, Some(e.qname), path[1..]);
    }
  }

  lemma {:induction false} MisplacedSignature(e: Element, parent: Option<QName>) returns (path: seq<nat>)
    requires !WalkAccepts(e, parent)
    ensures LeadsToSignature(e, path)
    ensures !(Bearer(e, parent, path).Some? && MayBear(Bearer(e, parent, path).value))
    decreases e
  {
    hide MayBear, IsSignature;
    if IsSignature(e) {
      path := [];
    } else {
      var children := ChildElements(e.children);
      var i :| 0 <= i < |children| && !WalkAccepts(children[i], Some(e.qname));
      ChildIsSmaller(e, i);
      var rest := MisplacedSignature(children[i], Some(e.qname));
      path := [i] + rest;
      assert path[1..] == rest;
    }
  }

  /** The walk accepts exactly the trees whose signatures are all well placed. */
  lemma WalkDecidesPlacement(e: Element, parent: Option<QName>)
    ensures WalkAccepts(e, parent) <==> SignaturesPlaced(e, parent)
  {
    hide WalkAccepts, LeadsToSignature, Bearer, MayBear;
    if WalkAccepts(e, parent) {
      forall path | LeadsToSignature(e, path)
        ensures Bearer(e, parent, path).Some? && MayBear(Bearer(e, parent, path).value)
      {
        WalkedIsPlaced(e, parent, path);
      }
    } else {
      var path := MisplacedSignature(e, parent);
    }
  }
}
