/** The authentication-context comparator of src/authn_context.rs and its quantified meaning
    (SAML 2.0 Core, section 3.3.2.2.1). */
module AuthnContext {
  import opened Wrappers

  datatype Comparison = Exact | Minimum | Maximum | Better

  datatype ClassRef =
    | Password | PasswordProtectedTransport | TlsClient | Smartcard | SmartcardPki | Kerberos
    | PreviousSession | Unspecified | MultiFactorAuth | TimeSyncToken | Custom(uri: string)

  datatype RequestedAuthnContext = RequestedAuthnContext(classRefs: seq<ClassRef>, comparison: Comparison)

  datatype Outcome = Satisfied | NotSatisfied | NotComparable

  function LocalName(c: ClassRef): string
    requires !c.Custom?
  {
    match c
    case Password => "Password"
    case PasswordProtectedTransport => "PasswordProtectedTransport"
    case TlsClient => "TLSClient"
    case Smartcard => "Smartcard"
    case SmartcardPki => "SmartcardPKI"
    case Kerberos => "Kerberos"
    case PreviousSession => "PreviousSession"
    case Unspecified => "unspecified"
    case MultiFactorAuth => "MultiFactorAuthentication"
    case TimeSyncToken => "TimeSyncToken"
  }

  function ClassUri(local: string): string { "urn:oasis:names:tc:SAML:2.0:ac:classes:" + local }

  function AsUri(c: ClassRef): string {
    if c.Custom? then c.uri else ClassUri(LocalName(c))
  }

  function FromUri(uri: string): ClassRef {
    if uri == AsUri(Password) then Password
    else if uri == AsUri(PasswordProtectedTransport) then PasswordProtectedTransport
    else if uri == AsUri(TlsClient) then TlsClient
    else if uri == AsUri(Smartcard) then Smartcard
    else if uri == AsUri(SmartcardPki) then SmartcardPki
    else if uri == AsUri(Kerberos) then Kerberos
    else if uri == AsUri(PreviousSession) then PreviousSession
    else if uri == AsUri(Unspecified) then Unspecified
    else if uri == AsUri(MultiFactorAuth) then MultiFactorAuth
    else if uri == AsUri(TimeSyncToken) then TimeSyncToken
    else Custom(uri)
  }

  function Strength(c: ClassRef): Option<nat> {
    match c
    case Unspecified => Some(0)
    case PreviousSession => Some(1)
    case Password => Some(2)
    case PasswordProtectedTransport => Some(3)
    case TimeSyncToken => Some(4)
    case Kerberos | TlsClient => Some(5)
    case Smartcard => Some(6)
    case SmartcardPki => Some(7)
    case MultiFactorAuth => Some(8)
    case Custom(_) => None
  }

  predicate AtLeast(a: ClassRef, b: ClassRef) {
    Strength(a).Some? && Strength(b).Some? && Strength(a).value >= Strength(b).value
  }

  predicate Stronger(a: ClassRef, b: ClassRef) { AtLeast(a, b) && !AtLeast(b, a) }

  predicate AllRankable(refs: seq<ClassRef>) { forall i :: 0 <= i < |refs| ==> Strength(refs[i]).Some? }

  /** The documented ladder, weakest rung first; classes on one rung are equally strong. */
  const LADDER: seq<set<ClassRef>> := [
    {Unspecified}, {PreviousSession}, {Password}, {PasswordProtectedTransport}, {TimeSyncToken},
    {Kerberos, TlsClient}, {Smartcard}, {SmartcardPki}, {MultiFactorAuth}]

  /** The standard classes stand on the ladder, a custom one nowhere, and a class is at least as strong as
      another exactly when its rung is not below the other's. */
  lemma StrengthIsTheLadder(a: ClassRef, b: ClassRef)
    ensures !a.Custom? <==> exists i :: 0 <= i < |LADDER| && a in LADDER[i]
    ensures AtLeast(a, b) <==> exists i, j :: 0 <= j <= i < |LADDER| && a in LADDER[i] && b in LADDER[j]
  {
    if !a.Custom? { assert a in LADDER[Strength(a).value]; }
    if !b.Custom? { assert b in LADDER[Strength(b).value]; }
    forall i | 0 <= i < |LADDER| && a in LADDER[i] ensures Strength(a) == Some(i) {}
    forall j | 0 <= j < |LADDER| && b in LADDER[j] ensures Strength(b) == Some(j) {}
  }

  /** Section 3.3.2.2.1, by quantifiers: exactly one of them, as strong as some, no stronger than
      some, stronger than each. */
  predicate Meets(requested: RequestedAuthnContext, actual: ClassRef) {
    var refs := requested.classRefs;
    match requested.comparison
    case Exact => exists i :: 0 <= i < |refs| && AsUri(refs[i]) == AsUri(actual)
    case Minimum => exists i :: 0 <= i < |refs| && AtLeast(actual, refs[i])
    case Maximum => exists i :: 0 <= i < |refs| && AtLeast(refs[i], actual)
    case Better => forall i :: 0 <= i < |refs| ==> Stronger(actual, refs[i])
  }

  /** The verdict the comparator must reach; an ordered comparison that any class leaves
      undetermined is refused as not comparable. */
  function Verdict(requested: RequestedAuthnContext, actualUri: string): Outcome {
    var actual := FromUri(actualUri);
    if !requested.comparison.Exact?
       && (Strength(actual).None? || requested.classRefs == [] || !AllRankable(requested.classRefs)) then NotComparable
    else if Meets(requested, actual) then Satisfied
    else NotSatisfied
  }

  /** `StandardComparator::evaluate`: strengths collected in a vector, then one pass for the least and
      the greatest. */
  method Evaluate(requested: RequestedAuthnContext, actualUri: string) returns (outcome: Outcome)
    ensures outcome == Verdict(requested, actualUri)
  {
    hide AsUri, FromUri;
    var refs := requested.classRefs;
    UriOfParsed(actualUri);
    if requested.comparison.Exact? {
      var found := false;
      for i := 0 to |refs|
        invariant found <==> exists k :: 0 <= k < i && AsUri(refs[k]) == actualUri
      {
        if AsUri(refs[i]) == actualUri { found := true; }
      }
      return if found then Satisfied else NotSatisfied;
    }
    var actual := FromUri(actualUri);
    if Strength(actual).None? {
      return NotComparable;
    }
    var actualStrength := Strength(actual).value;
    var strengths: seq<nat> := [];
    for i := 0 to |refs|
      invariant |strengths| == i
      invariant forall k :: 0 <= k < i ==> Strength(refs[k]) == Some(strengths[k])
    {
      if Strength(refs[i]).None? {
        return NotComparable;
      }
      strengths := strengths + [Strength(refs[i]).value];
    }
    if strengths == [] {
      return NotComparable;
    }
    var least, greatest := strengths[0], strengths[0];
    ghost var atLeast, atMost := 0, 0;
    for i := 1 to |strengths|
      invariant 0 <= atLeast < i && strengths[atLeast] == least
      invariant 0 <= atMost < i && strengths[atMost] == greatest
      invariant forall k :: 0 <= k < i ==> least <= strengths[k] <= greatest
    {
      if strengths[i] < least { least, atLeast := strengths[i], i; }
      if strengths[i] > greatest { greatest, atMost := strengths[i], i; }
    }
    assert Strength(refs[atLeast]) == Some(least) && Strength(refs[atMost]) == Some(greatest);
    var satisfied := match requested.comparison
      case Exact => false
      case Minimum => actualStrength >= least
      case Maximum => actualStrength <= greatest
      case Better => actualStrength > greatest;
    return if satisfied then Satisfied else NotSatisfied;
  }

  // ---- URIs ----

  predicate IsStandardUri(uri: string) { !FromUri(uri).Custom? }

  lemma UriOfParsed(uri: string)
    ensures AsUri(FromUri(uri)) == uri
  {
    hide LocalName, ClassUri;
  }

  /** Length and first letter tell the standard names apart. */
  lemma NameSignature(c: ClassRef)
    requires !c.Custom?
    ensures var s := LocalName(c);
            && |s| == (match c
                       case Password | Kerberos => 8
                       case TlsClient | Smartcard => 9
                       case Unspecified => 11
                       case SmartcardPki => 12
                       case TimeSyncToken => 13
                       case PreviousSession => 15
                       case MultiFactorAuth => 25
                       case PasswordProtectedTransport => 26)
            && (s[0] == 'P' <==> c in {Password, PasswordProtectedTransport, PreviousSession})
            && (s[0] == 'T' <==> c in {TlsClient, TimeSyncToken})
  {
  }

  lemma StandardUrisDiffer(c: ClassRef, d: ClassRef)
    requires !c.Custom? && !d.Custom? && AsUri(c) == AsUri(d)
    ensures c == d
  {
    hide LocalName;
    var n := |ClassUri("")|;
    assert ClassUri(LocalName(c))[n..] == LocalName(c) && ClassUri(LocalName(d))[n..] == LocalName(d);
    NameSignature(c);
    NameSignature(d);
  }

  /** Every class but a `Custom` that holds a standard URI survives the trip through its URI. */
  lemma ClassOfUri(c: ClassRef)
    ensures FromUri(AsUri(c)) == c <==> !(c.Custom? && IsStandardUri(c.uri))
  {
    hide LocalName, ClassUri;
    if !c.Custom? {
      var d := FromUri(AsUri(c));
      UriOfParsed(AsUri(c));
      assert !d.Custom?;
      StandardUrisDiffer(c, d);
    }
  }

  // ---- What the verdict does not depend on ----

  /** `Better` and `Maximum` are complements wherever they are decided at all. */
  lemma BetterComplementsMaximum(refs: seq<ClassRef>, actualUri: string)
    ensures var better := Verdict(RequestedAuthnContext(refs, Better), actualUri);
            var maximum := Verdict(RequestedAuthnContext(refs, Maximum), actualUri);
            && (better == NotComparable <==> maximum == NotComparable)
            && (better == Satisfied <==> maximum == NotSatisfied)
  {
    hide FromUri;
    var actual := FromUri(actualUri);
    if Strength(actual).Some? && refs != [] && AllRankable(refs) {
      assert forall i :: 0 <= i < |refs| ==> (Stronger(actual, refs[i]) <==> !AtLeast(refs[i], actual));
    }
  }

  function ClassSet(refs: seq<ClassRef>): set<ClassRef> { set c | c in refs }

  /** The verdict depends on the set of requested classes only, not on their order or repetition. */
  lemma VerdictIgnoresOrderAndDuplicates(a: seq<ClassRef>, b: seq<ClassRef>, comparison: Comparison, actualUri: string)
    requires ClassSet(a) == ClassSet(b)
    ensures Verdict(RequestedAuthnContext(a, comparison), actualUri) == Verdict(RequestedAuthnContext(b, comparison), actualUri)
  {
    hide FromUri;
    MembersTransfer(a, b, comparison, FromUri(actualUri));
    MembersTransfer(b, a, comparison, FromUri(actualUri));
  }

  lemma MembersTransfer(a: seq<ClassRef>, b: seq<ClassRef>, comparison: Comparison, actual: ClassRef)
    requires ClassSet(a) == ClassSet(b)
    ensures AllRankable(a) ==> AllRankable(b)
    ensures a == [] ==> b == []
    ensures Meets(RequestedAuthnContext(a, comparison), actual) ==> Meets(RequestedAuthnContext(b, comparison), actual)
  {
    hide AsUri, AtLeast, Strength;
    forall i | 0 <= i < |b| ensures b[i] in a { assert b[i] in ClassSet(b); }
    forall i | 0 <= i < |a| ensures a[i] in b { assert a[i] in ClassSet(a); }
    if b != [] { assert b[0] in a; }
    if Meets(RequestedAuthnContext(a, comparison), actual) {
      match comparison
      case Exact =>
        var i :| 0 <= i < |a| && AsUri(a[i]) == AsUri(actual);
        var k :| 0 <= k < |b| && b[k] == a[i];
      case Minimum =>
        var i :| 0 <= i < |a| && AtLeast(actual, a[i]);
        var k :| 0 <= k < |b| && b[k] == a[i];
      case Maximum =>
        var i :| 0 <= i < |a| && AtLeast(a[i], actual);
        var k :| 0 <= k < |b| && b[k] == a[i];
      case Better =>
        assert forall c :: c in a ==> Stronger(actual, c);
    }
  }

  /** One unrankable requested class, even a `Custom` that spells a standard URI, makes every ordered
      comparison not comparable; `Exact` still matches it by its text. */
  lemma CustomIsNeverRanked(refs: seq<ClassRef>, i: nat, comparison: Comparison, actualUri: string)
    requires i < |refs| && refs[i].Custom?
    ensures var v := Verdict(RequestedAuthnContext(refs, comparison), actualUri);
            if comparison.Exact? then refs[i].uri == actualUri ==> v == Satisfied else v == NotComparable
  {
    hide FromUri, ClassUri, LocalName;
    UriOfParsed(actualUri);
    assert AsUri(refs[i]) == refs[i].uri;
  }
}
