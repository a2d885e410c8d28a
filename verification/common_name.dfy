/** The CN rule both signature wrappers apply to the signer certificate's subject: parse
    the RFC 2253 subject string as an LdapName, walk its RDN list, and keep overwriting
    the answer at every RDN whose type is exactly "CN". */
module CommonName {
  import opened Outcome
  import opened Names

  /** Type comparison is case-sensitive: "cn" or "commonName" do not count. */
  predicate IsCn(r: Rdn) {
    r.attrType == "CN"
  }

  /** Index i holds a CN and no later RDN does. */
  ghost predicate IsLastCnAt(rdns: seq<Rdn>, i: int) {
    0 <= i < |rdns| && IsCn(rdns[i]) && forall j :: i < j < |rdns| ==> !IsCn(rdns[j])
  }

  /** The value the loop leaves behind. The loop has no early exit, so this is the value of
      the last CN in list order; the recursion reads the list from its end. */
  function LastCn(rdns: seq<Rdn>): (r: Option<string>)
    ensures r.None? <==> forall i :: 0 <= i < |rdns| ==> !IsCn(rdns[i])
    ensures r.Some? ==> exists i :: IsLastCnAt(rdns, i) && rdns[i].value == r.value
  {
    if |rdns| == 0 then None
    else if IsCn(rdns[|rdns| - 1]) then
      assert IsLastCnAt(rdns, |rdns| - 1);
      Some(rdns[|rdns| - 1].value)
    else
      var r := LastCn(rdns[..|rdns| - 1]);
      LastCnAtExtend(rdns, rdns[..|rdns| - 1]);
      r
  }

  /** Extending a list by a non-CN keeps every answer about its prefix. */
  lemma LastCnAtExtend(rdns: seq<Rdn>, prefix: seq<Rdn>)
    requires |rdns| > 0 && !IsCn(rdns[|rdns| - 1]) && prefix == rdns[..|rdns| - 1]
    ensures (forall i :: 0 <= i < |rdns| ==> !IsCn(rdns[i])) <==> (forall i :: 0 <= i < |prefix| ==> !IsCn(prefix[i]))
    ensures forall i :: IsLastCnAt(prefix, i) ==> IsLastCnAt(rdns, i) && prefix[i] == rdns[i]
  {
    forall i | 0 <= i < |prefix|
      ensures prefix[i] == rdns[i]
    {
    }
    forall i | IsLastCnAt(prefix, i)
      ensures IsLastCnAt(rdns, i)
    {
      forall j | i < j < |rdns|
        ensures !IsCn(rdns[j])
      {
        if j < |prefix| {
          assert !IsCn(prefix[j]);
        }
      }
    }
  }

  lemma DropLastAppend(a: seq<Rdn>, b: seq<Rdn>)
    requires |b| > 0
    ensures (a + b)[|a + b| - 1] == b[|b| - 1]
    ensures (a + b)[..|a + b| - 1] == a + b[..|b| - 1]
  {
  }

  /** The loop overwrites: a CN in a later part of the list hides every CN before it. */
  lemma {:induction false} LastCnAppend(a: seq<Rdn>, b: seq<Rdn>)
    ensures LastCn(a + b) == if LastCn(b).Some? then LastCn(b) else LastCn(a)
  {
    if |b| > 0 {
      DropLastAppend(a, b);
      LastCnAppend(a, b[..|b| - 1]);
    } else {
      assert a + b == a;
    }
  }

  /** The type test is exact: with RDNs CN=a, O=o, cn=b, CN=c the answer is c, and a
      lower-case "cn" alone yields nothing. */
  lemma LastCnExamples()
    ensures LastCn([Rdn("CN", "a"), Rdn("O", "o"), Rdn("cn", "b"), Rdn("CN", "c")]) == Some("c")
    ensures LastCn([Rdn("CN", "a"), Rdn("cn", "b")]) == Some("a")
    ensures LastCn([Rdn("cn", "b")]) == None
  {
    var rdns := [Rdn("CN", "a"), Rdn("O", "o"), Rdn("cn", "b"), Rdn("CN", "c")];
    assert IsCn(rdns[3]);
    var two := [Rdn("CN", "a"), Rdn("cn", "b")];
    assert !IsCn(two[1]) && two[..1] == [Rdn("CN", "a")];
    assert !IsCn(Rdn("cn", "b"));
  }

  /** The subject string parses and names at least one CN. */
  predicate HasCn(np: NameParsers, subject: string) {
    np.ldapName(subject).Some? && exists i :: 0 <= i < |np.ldapName(subject).value| && IsCn(np.ldapName(subject).value[i])
  }

  /** v is the value of the last CN of the parsed subject. */
  ghost predicate IsLastCnOf(np: NameParsers, subject: string, v: string) {
    np.ldapName(subject).Some? && exists i :: IsLastCnAt(np.ldapName(subject).value, i) && np.ldapName(subject).value[i].value == v
  }

  /** The CN of a subject DN string, or None when the string does not parse or names no CN. */
  function SubjectCn(np: NameParsers, subject: string): (r: Option<string>)
    ensures r.Some? <==> HasCn(np, subject)
    ensures r.Some? ==> IsLastCnOf(np, subject, r.value)
  {
    match np.ldapName(subject)
    case None => None
    case Some(rdns) => LastCn(rdns)
  }
}
