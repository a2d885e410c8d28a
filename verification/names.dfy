/** Distinguished names as the two name parsers the wrappers use see them: X509Name for
    issuer comparison, LdapName for reading the subject's CN. Both parsers, and the value
    canonicalisation X509Name applies before comparing, are library code and are
    supplied as function values. */
module Names {
  import opened Outcome
  import opened Asn1

  /** One attribute of an X509Name: its type OID and its value string. */
  datatype Attr = Attr(oid: Oid, value: string)

  /** One RDN of an LdapName: its type token exactly as written, and its value. */
  datatype Rdn = Rdn(attrType: string, value: string)

  datatype NameParsers = NameParsers(
    /** new X509Name(s); None is the IllegalArgumentException it throws. */
    x509Name: string -> Option<seq<Attr>>,
    /** The canonical form X509Name compares values in. */
    canonical: string -> string,
    /** new LdapName(s).getRdns(), in list order; None is an InvalidNameException. */
    ldapName: string -> Option<seq<Rdn>>
  )

  /** What X509Name compares of an attribute: its OID and its canonical value. */
  function Key(np: NameParsers, a: Attr): (Oid, string) {
    (a.oid, np.canonical(a.value))
  }

  function Keys(np: NameParsers, attrs: seq<Attr>): (r: seq<(Oid, string)>)
    ensures |r| == |attrs|
    ensures forall i :: 0 <= i < |attrs| ==> r[i] == Key(np, attrs[i])
  {
    if |attrs| == 0 then [] else [Key(np, attrs[0])] + Keys(np, attrs[1..])
  }

  /** Order-insensitive name equality (X509Name.equals with inOrder false): the two names
      hold the same attributes, counted with multiplicity, up to value canonicalisation. */
  predicate Equivalent(np: NameParsers, a: seq<Attr>, b: seq<Attr>) {
    multiset(Keys(np, a)) == multiset(Keys(np, b))
  }

  predicate Parses(np: NameParsers, dn: string) {
    np.x509Name(dn).Some?
  }

  /** Two DN strings that both parse and name the same attributes. */
  predicate SameName(np: NameParsers, dn1: string, dn2: string) {
    Parses(np, dn1) && Parses(np, dn2) && Equivalent(np, np.x509Name(dn1).value, np.x509Name(dn2).value)
  }

  lemma {:induction false} KeysAppend(np: NameParsers, a: seq<Attr>, b: seq<Attr>)
    ensures Keys(np, a + b) == Keys(np, a) + Keys(np, b)
  {
    if |a| == 0 {
      assert a + b == b;
    } else {
      assert (a + b)[1..] == a[1..] + b;
      KeysAppend(np, a[1..], b);
    }
  }

  /** Removing the element at index j, from a sequence and from its keys. */
  lemma RemoveAt(np: NameParsers, b: seq<Attr>, j: nat)
    requires j < |b|
    ensures multiset(b[..j] + b[j + 1..]) == multiset(b) - multiset{b[j]}
    ensures multiset(Keys(np, b)) == multiset(Keys(np, b[..j] + b[j + 1..])) + multiset{Key(np, b[j])}
  {
    var pre, post := b[..j], b[j + 1..];
    SplitAround(b, j);
    KeysAppend(np, pre + [b[j]], post);
    KeysAppend(np, pre, [b[j]]);
    KeysAppend(np, pre, post);
  }

  lemma SplitAround(b: seq<Attr>, j: nat)
    requires j < |b|
    ensures b == b[..j] + [b[j]] + b[j + 1..]
  {
  }

  /** The attribute keys of a name depend only on which attributes it holds, not on
      their order: a permutation of the attributes permutes the keys. */
  lemma {:induction false} KeysPermutation(np: NameParsers, a: seq<Attr>, b: seq<Attr>)
    requires multiset(a) == multiset(b)
    ensures multiset(Keys(np, a)) == multiset(Keys(np, b))
    decreases |a|
  {
    if |a| == 0 {
      assert |b| == |multiset(b)|;
    } else {
      var x := a[0];
      assert x in multiset(b);
      var j :| 0 <= j < |b| && b[j] == x;
      RemoveAt(np, b, j);
      RemoveAt(np, a, 0);
      assert a[..0] + a[1..] == a[1..];
      KeysPermutation(np, a[1..], b[..j] + b[j + 1..]);
    }
  }

  /** Equivalence ignores attribute order: replacing a name by a reordering of it does
      not change the answer. */
  lemma EquivalentIgnoresOrder(np: NameParsers, a: seq<Attr>, a': seq<Attr>, b: seq<Attr>)
    requires multiset(a) == multiset(a')
    ensures Equivalent(np, a, b) <==> Equivalent(np, a', b)
  {
    KeysPermutation(np, a, a');
  }
}
