/** The elements of a certificate that go to handlers, in octets: algorithm identifiers, keys and serial numbers. */
module CertificateForms {
  import opened Bytes
  import opened Der
  import opened DerInteger
  import opened Names
  import opened Elements
  import opened Policies
  import opened PolicyForms
  import opened Certificate
  import CertificateLayout

  // ---------------------------------------------------------------- algorithm identifiers

  /** An identifier that the table knows, parameters that its handler takes, and the slices of both. */
  ghost predicate AlgorithmForm(s: Octets, find: Octets -> Option<nat>, parameters: ParameterParser, a: Algorithm,
                                p: bool, oid: Octets, params: Octets) {
    && |oid + params| < U32_LIMIT && s == Tlv(UNIVERSAL, p, SEQUENCE, oid + params)
    && OidAt(oid) == Some(|oid|) && find(oid) == Some(a.id) && parameters(a.id, params) == Some(a.setting)
    && a.oid == Slice(|s| - |params| - |oid|, |oid|) && a.params == Slice(|s| - |params|, |params|)
  }

  /** An AlgorithmIdentifier is accepted exactly when it is one SEQUENCE of that form. */
  lemma AlgorithmExact(s: Octets, find: Octets -> Option<nat>, parameters: ParameterParser, a: Algorithm)
    requires a.eaten == |s|
    ensures AlgorithmAt(s, find, parameters) == Some(a) <==>
            exists p, oid, params :: AlgorithmForm(s, find, parameters, a, p, oid, params)
  {
    hide AlgorithmAt, AlgorithmForm;
    if AlgorithmAt(s, find, parameters) == Some(a) {
      var p, oid, params := AlgorithmFound(s, find, parameters, a);
    }
    if p, oid, params :| AlgorithmForm(s, find, parameters, a, p, oid, params) {
      AlgorithmAccepted(s, find, parameters, a, p, oid, params);
    }
  }

  lemma AlgorithmFound(s: Octets, find: Octets -> Option<nat>, parameters: ParameterParser, a: Algorithm)
    returns (p: bool, oid: Octets, params: Octets)
    requires AlgorithmAt(s, find, parameters) == Some(a) && a.eaten == |s|
    ensures AlgorithmForm(s, find, parameters, a, p, oid, params)
  {
    hide TlvAt, Tlv, OidAt;
    var content;
    p, content := FillsBuffer(s, UNIVERSAL, SEQUENCE);
    var n := OidAt(content).value;
    oid, params := content[..n], content[n..];
    assert content == oid + params;
    OidStable(oid, params, n);
  }

  lemma AlgorithmAccepted(s: Octets, find: Octets -> Option<nat>, parameters: ParameterParser, a: Algorithm, p: bool,
                          oid: Octets, params: Octets)
    requires a.eaten == |s| && AlgorithmForm(s, find, parameters, a, p, oid, params)
    ensures AlgorithmAt(s, find, parameters) == Some(a)
  {
    hide TlvAt, Tlv, OidAt;
    var content := oid + params;
    EncodedFills(UNIVERSAL, p, SEQUENCE, content);
    OidStable(oid, params, |oid|);
    assert content[..|oid|] == oid && content[|oid|..] == params;
  }

  // ---------------------------------------------------------------- keys

  /** An algorithm identifier of the key table, a key that its handler takes, and the slices of identifier, parameters
      and key. */
  ghost predicate KeyForm(env: Env, s: Octets, k: KeyInfo, p: bool, id: Octets, key: Octets, a: Algorithm) {
    && |id + key| < U32_LIMIT && s == Tlv(UNIVERSAL, p, SEQUENCE, id + key)
    && AlgorithmAt(id, env.keyAlgorithm, env.keyParameters) == Some(a) && a.eaten == |id|
    && env.publicKey(a.id, id, key)
    && k.alg == a.id && k.setting == a.setting
    && k.key == Slice(|s| - |key|, |key|) && k.identifier == Slice(|s| - |key| - |id|, |id|)
    && k.params == a.params.From(k.identifier.start)
  }

  /** A SubjectPublicKeyInfo is accepted exactly when it is one SEQUENCE of that form. */
  lemma KeyExact(env: Env, s: Octets, k: KeyInfo)
    requires k.eaten == |s|
    ensures KeyInfoAt(env, s) == Some(k) <==> exists p, id, key, a :: KeyForm(env, s, k, p, id, key, a)
  {
    hide KeyInfoAt, KeyForm;
    if KeyInfoAt(env, s) == Some(k) {
      var p, id, key, a := KeyFound(env, s, k);
    }
    if p, id, key, a :| KeyForm(env, s, k, p, id, key, a) {
      KeyAccepted(env, s, k, p, id, key, a);
    }
  }

  lemma KeyFound(env: Env, s: Octets, k: KeyInfo) returns (p: bool, id: Octets, key: Octets, a: Algorithm)
    requires KeyInfoAt(env, s) == Some(k) && k.eaten == |s|
    ensures KeyForm(env, s, k, p, id, key, a)
  {
    hide TlvAt, Tlv, AlgorithmAt;
    var content;
    p, content := FillsBuffer(s, UNIVERSAL, SEQUENCE);
    a := AlgorithmAt(content, env.keyAlgorithm, env.keyParameters).value;
    id, key := content[..a.eaten], content[a.eaten..];
    assert content == id + key;
    CertificateLayout.AlgorithmStable(id, key, env.keyAlgorithm, env.keyParameters, a);
  }

  lemma KeyAccepted(env: Env, s: Octets, k: KeyInfo, p: bool, id: Octets, key: Octets, a: Algorithm)
    requires k.eaten == |s| && KeyForm(env, s, k, p, id, key, a)
    ensures KeyInfoAt(env, s) == Some(k)
  {
    hide TlvAt, Tlv, AlgorithmAt;
    var content := id + key;
    EncodedFills(UNIVERSAL, p, SEQUENCE, content);
    CertificateLayout.AlgorithmStable(id, key, env.keyAlgorithm, env.keyParameters, a);
    assert content[..|id|] == id && content[|id|..] == key;
  }

  // ---------------------------------------------------------------- serial numbers

  /** A serial number is accepted exactly when it is one INTEGER in its shortest form, of either sign. */
  lemma SerialExact(part: Octets)
    ensures SerialAt(part) == Some(|part|) <==>
            exists p, c :: |c| < U32_LIMIT && part == Tlv(UNIVERSAL, p, INTEGER, c) && Shortest(c)
  {
    hide TlvAt, Tlv, IntegerAt, Shortest;
    NumberExact(part);
    SerialIsNumber(part);
  }

  lemma SerialIsNumber(s: Octets)
    ensures SerialAt(s) == NumberAt(s)
  {
    hide TlvAt, Minimal;
  }
}
