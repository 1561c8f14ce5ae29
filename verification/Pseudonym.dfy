/** The bytes a per-SP pseudonym is computed over (`PersistentPerSpHmac` in src/proxy.rs). The HMAC
    itself is not part of this model. */
module Pseudonym {
  import opened Wrappers

  type byte = b: nat | b < 256

  const U64_LIMIT: nat := 0x1_0000_0000_0000_0000

  function Ascii(s: string): seq<byte>
    requires forall i :: 0 <= i < |s| ==> s[i] < '\U{80}'
  {
    seq(|s|, i requires 0 <= i < |s| => s[i] as int)
  }

  const DOMAIN_TAG: seq<byte> := Ascii("saml-proxy-persistent-nameid-v1\0")

  /** The `width` low bytes of `n`, most significant first (`u64::to_be_bytes` for eight). */
  function BigEndian(n: nat, width: nat): (r: seq<byte>)
    ensures |r| == width
  {
    if width == 0 then [] else BigEndian(n / 256, width - 1) + [n % 256]
  }

  function FromBigEndian(s: seq<byte>): nat {
    if s == [] then 0 else 256 * FromBigEndian(s[..|s| - 1]) + s[|s| - 1]
  }

  function Power256(width: nat): nat { if width == 0 then 1 else 256 * Power256(width - 1) }

  /** A field as the MAC sees it: eight bytes of length, then the field. */
  function Framed(field: seq<byte>): seq<byte> { BigEndian(|field|, 8) + field }

  function AllFramed(fields: seq<seq<byte>>): seq<byte> {
    if fields == [] then [] else AllFramed(fields[..|fields| - 1]) + Framed(fields[|fields| - 1])
  }

  predicate LengthsFit(fields: seq<seq<byte>>) { forall i :: 0 <= i < |fields| ==> |fields[i]| < U64_LIMIT }

  /** The MAC input, or `None` when a length does not fit its eight bytes. */
  function MacInput(idp: seq<byte>, subject: seq<byte>, sp: seq<byte>): Option<seq<byte>> {
    if LengthsFit([idp, subject, sp]) then Some(DOMAIN_TAG + AllFramed([idp, subject, sp])) else None
  }

  /** The source's loop: each field is fed to the MAC in turn. */
  method FeedMac(idp: seq<byte>, subject: seq<byte>, sp: seq<byte>) returns (fed: Option<seq<byte>>)
    ensures fed == MacInput(idp, subject, sp)
  {
    hide BigEndian, Ascii;
    var bytes := DOMAIN_TAG;
    var fields := [idp, subject, sp];
    for i := 0 to |fields|
      invariant LengthsFit(fields[..i])
      invariant bytes == DOMAIN_TAG + AllFramed(fields[..i])
    {
      if |fields[i]| >= U64_LIMIT {
        return None;
      }
      bytes := bytes + BigEndian(|fields[i]|, 8) + fields[i];
      assert fields[..i + 1][..i] == fields[..i];
    }
    assert fields[..|fields|] == fields;
    return Some(bytes);
  }

  // ---- Reading the frames back ----

  /** Takes `n` frames off the front of `s`. */
  function Unframe(s: seq<byte>, n: nat): Option<seq<seq<byte>>>
    decreases n
  {
    if n == 0 then (if s == [] then Some([]) else None)
    else if |s| < 8 || |s| - 8 < FromBigEndian(s[..8]) then None
    else
      var end := 8 + FromBigEndian(s[..8]);
      var rest :- Unframe(s[end..], n - 1);
      Some([s[8..end]] + rest)
  }

  lemma {:induction false} BigEndianRoundTrip(n: nat, width: nat)
    requires n < Power256(width)
    ensures FromBigEndian(BigEndian(n, width)) == n
  {
    if width > 0 {
      BigEndianRoundTrip(n / 256, width - 1);
      assert BigEndian(n, width)[..width - 1] == BigEndian(n / 256, width - 1);
    }
  }

  lemma {:induction false} FirstFrame(fields: seq<seq<byte>>)
    requires fields != []
    ensures AllFramed(fields) == Framed(fields[0]) + AllFramed(fields[1..])
  {
    hide Framed;
    var n := |fields| - 1;
    if n == 0 {
      assert AllFramed(fields[..0]) == [] && AllFramed(fields[1..]) == [];
    } else {
      FirstFrame(fields[..n]);
      assert fields[..n][1..] == fields[1..][..n - 1];
      assert fields[1..][n - 1] == fields[n];
    }
  }

  /** Any number of frames reads back as the fields that were framed. */
  lemma {:induction false} UnframeFramed(fields: seq<seq<byte>>)
    requires LengthsFit(fields)
    ensures Unframe(AllFramed(fields), |fields|) == Some(fields)
  {
    if fields != [] {
      hide BigEndian, FromBigEndian, AllFramed;
      var field, rest := fields[0], fields[1..];
      FirstFrame(fields);
      UnframeFramed(rest);
      assert Power256(8) == U64_LIMIT by { assert Power256(4) == 0x1_0000_0000; }
      BigEndianRoundTrip(|field|, 8);
      var s := BigEndian(|field|, 8) + field + AllFramed(rest);
      assert s == AllFramed(fields);
      assert s[..8] == BigEndian(|field|, 8);
      assert s[8..8 + |field|] == field && s[8 + |field|..] == AllFramed(rest);
      assert [field] + rest == fields;
    }
    assert AllFramed([]) == [];
  }

  /** The MAC input determines the upstream IdP, the subject and the downstream SP: distinct triples
      never share an input, and no input is a triple's in two ways. */
  lemma MacInputIsInjective(idp: seq<byte>, subject: seq<byte>, sp: seq<byte>, idp': seq<byte>, subject': seq<byte>, sp': seq<byte>)
    requires MacInput(idp, subject, sp).Some? && MacInput(idp, subject, sp) == MacInput(idp', subject', sp')
    ensures idp == idp' && subject == subject' && sp == sp'
  {
    var a, b := [idp, subject, sp], [idp', subject', sp'];
    assert (DOMAIN_TAG + AllFramed(a))[|DOMAIN_TAG|..] == AllFramed(a);
    assert (DOMAIN_TAG + AllFramed(b))[|DOMAIN_TAG|..] == AllFramed(b);
    UnframeFramed(a);
    UnframeFramed(b);
    assert a[0] == b[0] && a[1] == b[1] && a[2] == b[2];
  }
}
