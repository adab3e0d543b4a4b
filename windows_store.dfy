/** The Windows certificate store (Stores/WindowsCertificateStore.cs): the
    leaf goes into the personal store "My" of a store location, and the rest
    of the chain into the trusted-root store "Root" (self-signed
    certificates) or the intermediate store "CertificateAuthority". A store
    is a sequence of certificates in which a thumbprint, compared ignoring
    case, identifies a certificate. */
module WindowsStore {
  import opened Wrappers
  import opened Text
  import opened Runtime
  import opened Identity
  import opened Results

  /** `c` has thumbprint `t` ignoring case (`X509FindType.FindByThumbprint`). */
  predicate HasThumbprint(c: X509, t: string)
  {
    EqualsIgnoreCase(c.thumbprint, t)
  }

  /** No two certificates of the store share a thumbprint. */
  predicate NoDuplicates(s: seq<X509>)
  {
    forall i, j | 0 <= i < j < |s| :: !HasThumbprint(s[i], s[j].thumbprint)
  }

  /** The first certificate with thumbprint `t`. */
  function FirstMatch(s: seq<X509>, t: string): (r: Option<X509>)
    ensures r.None? <==> forall c | c in s :: !HasThumbprint(c, t)
    ensures r.Some? ==> exists i | 0 <= i < |s| ::
      s[i] == r.value && HasThumbprint(s[i], t) && forall j | 0 <= j < i :: !HasThumbprint(s[j], t)
  {
    if s == [] then None
    else if HasThumbprint(s[0], t) then Some(s[0])
    else
      var r := FirstMatch(s[1..], t);
      if r.Some? then
        var i :| 0 <= i < |s[1..]| && s[1..][i] == r.value && HasThumbprint(s[1..][i], t) &&
          forall j | 0 <= j < i :: !HasThumbprint(s[1..][j], t);
        assert s[i + 1] == r.value;
        assert forall j | 0 <= j < i + 1 :: !HasThumbprint(s[j], t) by {
          forall j | 0 <= j < i + 1 ensures !HasThumbprint(s[j], t) {
            if j > 0 { assert s[j] == s[1..][j - 1]; }
          }
        }
        r
      else r
  }

  /** `Get(thumbprint)`: the first certificate in My with that thumbprint, or
      null. Searching for a null thumbprint throws. */
  function Get(st: HostState, location: StoreLocation, thumbprint: Option<string>): (r: Result<Option<X509>, Exc>)
    ensures r.Err? <==> thumbprint.None?
    ensures r.Err? ==> r.error == ArgumentNull
    ensures r.Ok? ==> r.value == FirstMatch(st.Store(location, My), thumbprint.value)
  {
    if thumbprint.None? then Err(ArgumentNull) else Ok(FirstMatch(st.Store(location, My), thumbprint.value))
  }

  /** `Exists(cert)`: My holds a certificate with the identity's thumbprint,
      and the first one found has a private key. */
  function Exists(st: HostState, location: StoreLocation, cert: CertificateDetails): (r: Result<bool, Exc>)
    ensures r.Err? <==> cert.thumbprint.None?
    ensures r.Ok? ==> (r.value <==>
      FirstMatch(st.Store(location, My), cert.thumbprint.value).Some? &&
      FirstMatch(st.Store(location, My), cert.thumbprint.value).value.HasPrivateKey())
  {
    var x509 := Get(st, location, cert.thumbprint);
    if x509.Err? then Err(x509.error) else Ok(x509.value.Some? && x509.value.value.HasPrivateKey())
  }

  /** The store after `Remove` of every certificate with thumbprint `t`. */
  function RemoveMatching(s: seq<X509>, t: string): (r: seq<X509>)
    ensures forall c | c in r :: c in s && !HasThumbprint(c, t)
    ensures forall c | c in s && !HasThumbprint(c, t) :: c in r
    ensures |r| <= |s|
  {
    if s == [] then []
    else if HasThumbprint(s[0], t) then RemoveMatching(s[1..], t)
    else [s[0]] + RemoveMatching(s[1..], t)
  }

  /** Removing by a thumbprint equal ignoring case removes the same
      certificates. */
  lemma {:induction false} RemoveMatchingSameThumbprint(s: seq<X509>, t: string, u: string)
    requires EqualsIgnoreCase(t, u)
    ensures RemoveMatching(s, t) == RemoveMatching(s, u)
  {
    if s != [] {
      RemoveMatchingSameThumbprint(s[1..], t, u);
    }
  }

  /** Removing twice removes no more than once. */
  lemma {:induction false} RemoveMatchingTwice(s: seq<X509>, t: string)
    ensures RemoveMatching(RemoveMatching(s, t), t) == RemoveMatching(s, t)
  {
    if s != [] {
      RemoveMatchingTwice(s[1..], t);
      if !HasThumbprint(s[0], t) {
        assert ([s[0]] + RemoveMatching(s[1..], t))[1..] == RemoveMatching(s[1..], t);
      }
    }
  }

  /** The tail of a store without duplicates has none, and no certificate
      of the tail shares the head's thumbprint. */
  lemma NoDuplicatesTail(s: seq<X509>)
    requires NoDuplicates(s) && s != []
    ensures NoDuplicates(s[1..])
    ensures forall x | x in s[1..] :: !HasThumbprint(s[0], x.thumbprint)
  {
    forall i, j | 0 <= i < j < |s[1..]| ensures !HasThumbprint(s[1..][i], s[1..][j].thumbprint) {
      assert s[1..][i] == s[i + 1] && s[1..][j] == s[j + 1];
    }
    forall x | x in s[1..] ensures !HasThumbprint(s[0], x.thumbprint) {
      var k :| 0 <= k < |s[1..]| && s[1..][k] == x;
      assert s[k + 1] == x;
    }
  }

  /** A certificate put in front of a store without duplicates keeps it so
      when no certificate there shares its thumbprint. */
  lemma NoDuplicatesCons(h: X509, rest: seq<X509>)
    requires NoDuplicates(rest)
    requires forall x | x in rest :: !HasThumbprint(h, x.thumbprint)
    ensures NoDuplicates([h] + rest)
  {
    var r := [h] + rest;
    forall i, j | 0 <= i < j < |r| ensures !HasThumbprint(r[i], r[j].thumbprint) {
      assert r[j] == rest[j - 1];
      if i == 0 {
        assert rest[j - 1] in rest;
      } else {
        assert r[i] == rest[i - 1];
      }
    }
  }

  /** Removing keeps the order of the certificates that stay. */
  lemma {:induction false} RemoveMatchingNoDuplicates(s: seq<X509>, t: string)
    requires NoDuplicates(s)
    ensures NoDuplicates(RemoveMatching(s, t))
  {
    if s != [] {
      NoDuplicatesTail(s);
      RemoveMatchingNoDuplicates(s[1..], t);
      if !HasThumbprint(s[0], t) {
        NoDuplicatesCons(s[0], RemoveMatching(s[1..], t));
      }
    }
  }

  /** `X509Store.Add`: a certificate whose thumbprint is already in the store
      replaces that entry; any other is appended. */
  function AddToStore(s: seq<X509>, c: X509): (r: seq<X509>)
    ensures c in r
    ensures (forall x | x in s :: !HasThumbprint(x, c.thumbprint)) ==> r == s + [c]
  {
    if s == [] then [c]
    else if HasThumbprint(s[0], c.thumbprint) then [c] + s[1..]
    else [s[0]] + AddToStore(s[1..], c)
  }

  /** Adds `c` unless the store already holds its thumbprint. */
  function AddIfAbsent(s: seq<X509>, c: X509): (r: seq<X509>)
    ensures (exists x | x in s :: HasThumbprint(x, c.thumbprint)) ==> r == s
    ensures (forall x | x in s :: !HasThumbprint(x, c.thumbprint)) ==> r == s + [c]
  {
    if exists x | x in s :: HasThumbprint(x, c.thumbprint) then s else s + [c]
  }

  /** Whether a certificate is self-signed: its subject and issuer are the
      same text. */
  predicate SelfSigned(c: X509)
  {
    c.subject == c.issuer
  }

  /** One step of the loop over the chain: a self-signed certificate goes to
      Root, any other to the CA store, each only if absent there. */
  function Place(root: seq<X509>, ca: seq<X509>, c: X509): (seq<X509>, seq<X509>)
  {
    if SelfSigned(c) then (AddIfAbsent(root, c), ca) else (root, AddIfAbsent(ca, c))
  }

  /** The Root and CA stores after placing each certificate of `cs` in
      order. */
  function Distribute(root: seq<X509>, ca: seq<X509>, cs: seq<X509>): (seq<X509>, seq<X509>)
  {
    if cs == [] then (root, ca)
    else
      var (r, c) := Distribute(root, ca, cs[..|cs| - 1]);
      Place(r, c, cs[|cs| - 1])
  }

  /** `Save(cert, chain)` on the machine state. A null thumbprint throws before
      anything changes; an empty chain throws after the removal from My. */
  function SaveSpec(st: HostState, location: StoreLocation, cert: CertificateDetails, chain: seq<X509>)
    : (HostState, Result<DownloadResult, Exc>)
  {
    if cert.thumbprint.None? then (st, Err(ArgumentNull))
    else
      var my := RemoveMatching(st.Store(location, My), cert.thumbprint.value);
      if chain == [] then (st.(stores := st.stores[(location, My) := my]), Err(IndexOutOfRange))
      else
        var leaf := chain[0].(friendlyName := Show(cert.certificateName));
        var (root, ca) := Distribute(st.Store(location, Root), st.Store(location, CertificateAuthority), chain[1..]);
        (st.(stores := st.stores[(location, My) := AddToStore(my, leaf)][(location, Root) := root][(location, CertificateAuthority) := ca]),
         Ok(NewResult(Downloaded, Some(cert))))
  }

  /** `Save(cert, chain)`, step by step on the machine. */
  method Save(host: Host, location: StoreLocation, cert: CertificateDetails, chain: seq<X509>)
    returns (r: Result<DownloadResult, Exc>)
    modifies host
    ensures (host.State(), r) == SaveSpec(old(host.State()), location, cert, chain)
  {
    if cert.thumbprint.None? {
      return Err(ArgumentNull);
    }
    var thumbprint := cert.thumbprint.value;
    var st0 := host.State();
    var store := RemoveAll(host.State().Store(location, My), thumbprint);
    host.stores := host.stores[(location, My) := store];
    if chain == [] {
      return Err(IndexOutOfRange);
    }
    var leaf := chain[0].(friendlyName := Show(cert.certificateName));
    store := AddToStore(store, leaf);
    host.stores := host.stores[(location, My) := store];
    assert host.stores == st0.stores[(location, My) := store];
    assert host.State().Store(location, Root) == st0.Store(location, Root);
    assert host.State().Store(location, CertificateAuthority) == st0.Store(location, CertificateAuthority);
    var root, ca := AddChain(host.State().Store(location, Root), host.State().Store(location, CertificateAuthority), chain);
    host.stores := host.stores[(location, Root) := root][(location, CertificateAuthority) := ca];
    return Ok(NewResult(Downloaded, Some(cert)));
  }

  /** The certificates of the store with thumbprint `t`
      (`Certificates.Find(X509FindType.FindByThumbprint, t, false)`). */
  function Find(s: seq<X509>, t: string): (r: seq<X509>)
    ensures forall c | c in r :: c in s && HasThumbprint(c, t)
    ensures forall c | c in s && HasThumbprint(c, t) :: c in r
  {
    if s == [] then []
    else (if HasThumbprint(s[0], t) then [s[0]] else []) + Find(s[1..], t)
  }

  /** Without a certificate with thumbprint `t` there is nothing to remove. */
  lemma {:induction false} RemoveMatchingNone(s: seq<X509>, t: string)
    requires forall c | c in s :: !HasThumbprint(c, t)
    ensures RemoveMatching(s, t) == s
  {
    if s != [] {
      assert s[0] in s;
      assert forall c | c in s[1..] :: c in s;
      RemoveMatchingNone(s[1..], t);
      assert [s[0]] + s[1..] == s;
    }
  }

  /** The removal loop of `Save`: every certificate found with the
      identity's thumbprint is removed from the store in turn. */
  method RemoveAll(s: seq<X509>, thumbprint: string) returns (store: seq<X509>)
    ensures store == RemoveMatching(s, thumbprint)
    ensures forall c | c in store :: !HasThumbprint(c, thumbprint)
  {
    var existingCerts := Find(s, thumbprint);
    store := s;
    for k := 0 to |existingCerts|
      invariant store == if k == 0 then s else RemoveMatching(s, thumbprint)
    {
      assert existingCerts[k] in existingCerts;
      RemoveMatchingSameThumbprint(store, existingCerts[k].thumbprint, thumbprint);
      if k > 0 {
        RemoveMatchingTwice(s, thumbprint);
      }
      store := RemoveMatching(store, existingCerts[k].thumbprint);
    }
    if |existingCerts| == 0 {
      RemoveMatchingNone(s, thumbprint);
    }
  }

  /** Placing one more certificate of the chain. */
  lemma DistributeStep(root: seq<X509>, ca: seq<X509>, chain: seq<X509>, i: nat)
    requires 1 <= i < |chain|
    ensures Distribute(root, ca, chain[1..i + 1]) ==
      (var (r, c) := Distribute(root, ca, chain[1..i]); Place(r, c, chain[i]))
  {
    assert chain[1..i + 1][..i - 1] == chain[1..i];
  }

  /** The body of the loop over the chain for one certificate: a self-signed
      one goes to Root and any other to the CA store, unless a search by its
      thumbprint there finds a certificate already. */
  method PlaceOne(root0: seq<X509>, ca0: seq<X509>, c: X509) returns (root: seq<X509>, ca: seq<X509>)
    ensures (root, ca) == Place(root0, ca0, c)
  {
    root, ca := root0, ca0;
    var isSelfSigned := c.subject == c.issuer;
    if !isSelfSigned {
      var existing := Find(ca, c.thumbprint);
      if |existing| == 0 {
        ca := ca + [c];
      } else {
        assert existing[0] in existing;
      }
    } else {
      var existing := Find(root, c.thumbprint);
      if |existing| == 0 {
        root := root + [c];
      } else {
        assert existing[0] in existing;
      }
    }
  }

  /** The loop over the chain after the leaf: each certificate goes to Root
      when self-signed and to the CA store otherwise, unless that store
      already holds its thumbprint. */
  method AddChain(root0: seq<X509>, ca0: seq<X509>, chain: seq<X509>) returns (root: seq<X509>, ca: seq<X509>)
    requires chain != []
    ensures (root, ca) == Distribute(root0, ca0, chain[1..])
  {
    root, ca := root0, ca0;
    assert chain[1..1] == [];
    for i := 1 to |chain|
      invariant (root, ca) == Distribute(root0, ca0, chain[1..i])
    {
      DistributeStep(root0, ca0, chain, i);
      root, ca := PlaceOne(root, ca, chain[i]);
    }
    assert chain[1..|chain|] == chain[1..];
  }

  /** The three stores after a `Save` that got past the checks. */
  lemma SaveStores(st: HostState, location: StoreLocation, cert: CertificateDetails, chain: seq<X509>)
    requires cert.thumbprint.Some? && chain != []
    ensures var st1 := SaveSpec(st, location, cert, chain).0;
      var d := Distribute(st.Store(location, Root), st.Store(location, CertificateAuthority), chain[1..]);
      && st1.Store(location, My) == AddToStore(RemoveMatching(st.Store(location, My), cert.thumbprint.value),
                                               chain[0].(friendlyName := Show(cert.certificateName)))
      && st1.Store(location, Root) == d.0
      && st1.Store(location, CertificateAuthority) == d.1
  {
  }

  /** The trust stores only grow: the old Root and CA stores are prefixes of
      the new ones; what is added to Root is self-signed and from the chain,
      and what is added to CA is not self-signed and from the chain. */
  lemma {:induction false} DistributeGrows(root: seq<X509>, ca: seq<X509>, cs: seq<X509>)
    ensures var (r, c) := Distribute(root, ca, cs);
      && |root| <= |r| && r[..|root|] == root
      && |ca| <= |c| && c[..|ca|] == ca
      && (forall x | x in r[|root|..] :: x in cs && SelfSigned(x))
      && (forall x | x in c[|ca|..] :: x in cs && !SelfSigned(x))
  {
    if cs != [] {
      var init := cs[..|cs| - 1];
      var last := cs[|cs| - 1];
      DistributeGrows(root, ca, init);
      var (r0, c0) := Distribute(root, ca, init);
      var (r, c) := Distribute(root, ca, cs);
      assert forall x | x in init :: x in cs;
      if SelfSigned(last) && r != r0 {
        assert r == r0 + [last];
        assert r[|root|..] == r0[|root|..] + [last];
      }
      if !SelfSigned(last) && c != c0 {
        assert c == c0 + [last];
        assert c[|ca|..] == c0[|ca|..] + [last];
      }
    }
  }

  /** After the loop, the Root store holds the thumbprint of every
      self-signed certificate of the chain, and the CA store that of every
      other one. */
  lemma {:induction false} DistributePlacesAll(root: seq<X509>, ca: seq<X509>, cs: seq<X509>)
    ensures var (r, c) := Distribute(root, ca, cs);
      forall x | x in cs :: exists y | y in (if SelfSigned(x) then r else c) :: HasThumbprint(y, x.thumbprint)
  {
    if cs != [] {
      var init := cs[..|cs| - 1];
      var last := cs[|cs| - 1];
      DistributePlacesAll(root, ca, init);
      DistributeGrows(root, ca, init);
      var (r0, c0) := Distribute(root, ca, init);
      var (r, c) := Distribute(root, ca, cs);
      assert r[..|r0|] == r0 && c[..|c0|] == c0;
      forall x | x in cs
        ensures exists y | y in (if SelfSigned(x) then r else c) :: HasThumbprint(y, x.thumbprint)
      {
        if x == last {
          assert HasThumbprint(x, x.thumbprint);
          if SelfSigned(x) {
            assert r == AddIfAbsent(r0, x);
            if forall y | y in r0 :: !HasThumbprint(y, x.thumbprint) {
              assert x in r;
            }
          } else {
            assert c == AddIfAbsent(c0, x);
            if forall y | y in c0 :: !HasThumbprint(y, x.thumbprint) {
              assert x in c;
            }
          }
        } else {
          assert x in init;
          var y :| y in (if SelfSigned(x) then r0 else c0) && HasThumbprint(y, x.thumbprint);
          if SelfSigned(x) { assert y in r; } else { assert y in c; }
        }
      }
    }
  }

  /** When every certificate's thumbprint is already in its target store, the
      loop adds nothing. */
  lemma {:induction false} DistributeStable(root: seq<X509>, ca: seq<X509>, cs: seq<X509>)
    requires forall x | x in cs :: exists y | y in (if SelfSigned(x) then root else ca) :: HasThumbprint(y, x.thumbprint)
    ensures Distribute(root, ca, cs) == (root, ca)
  {
    if cs != [] {
      var init := cs[..|cs| - 1];
      assert forall x | x in init :: x in cs;
      DistributeStable(root, ca, init);
      assert cs[|cs| - 1] in cs;
    }
  }

  /** Running `Save` again with the same chain leaves the Root and CA stores
      as the first run left them. */
  lemma SaveAgainKeepsTrustStores(st: HostState, location: StoreLocation, cert: CertificateDetails, chain: seq<X509>)
    requires SaveSpec(st, location, cert, chain).1.Ok?
    ensures var st1 := SaveSpec(st, location, cert, chain).0;
      var st2 := SaveSpec(st1, location, cert, chain).0;
      && st2.Store(location, Root) == st1.Store(location, Root)
      && st2.Store(location, CertificateAuthority) == st1.Store(location, CertificateAuthority)
  {
    var st1 := SaveSpec(st, location, cert, chain).0;
    var root := st.Store(location, Root);
    var ca := st.Store(location, CertificateAuthority);
    DistributePlacesAll(root, ca, chain[1..]);
    SaveStores(st, location, cert, chain);
    SaveStores(st1, location, cert, chain);
    var d := Distribute(root, ca, chain[1..]);
    DistributeStable(d.0, d.1, chain[1..]);
  }

  /** Adding a certificate whose thumbprint is absent keeps the store free of
      duplicates. */
  lemma AppendNoDuplicates(s: seq<X509>, c: X509)
    requires NoDuplicates(s)
    requires forall x | x in s :: !HasThumbprint(x, c.thumbprint)
    ensures NoDuplicates(s + [c])
  {
    var r := s + [c];
    forall i, j | 0 <= i < j < |r| ensures !HasThumbprint(r[i], r[j].thumbprint) {
      if j == |s| {
        assert r[i] in s;
      } else {
        assert r[i] == s[i] && r[j] == s[j];
      }
    }
  }

  /** `X509Store.Add` keeps the store free of duplicates. */
  lemma {:induction false} AddToStoreNoDuplicates(s: seq<X509>, c: X509)
    requires NoDuplicates(s)
    ensures NoDuplicates(AddToStore(s, c))
  {
    if s == [] {
    } else {
      NoDuplicatesTail(s);
      if HasThumbprint(s[0], c.thumbprint) {
        NoDuplicatesCons(c, s[1..]);
      } else {
        AddToStoreNoDuplicates(s[1..], c);
        AddToStoreMembers(s[1..], c);
        NoDuplicatesCons(s[0], AddToStore(s[1..], c));
      }
    }
  }

  /** `X509Store.Add` holds the added certificate and the old ones. */
  lemma {:induction false} AddToStoreMembers(s: seq<X509>, c: X509)
    ensures forall x | x in AddToStore(s, c) :: x == c || x in s
  {
    if s != [] && !HasThumbprint(s[0], c.thumbprint) {
      AddToStoreMembers(s[1..], c);
    }
  }

  /** The loop over the chain keeps the Root and CA stores free of
      duplicates. */
  lemma {:induction false} DistributeNoDuplicates(root: seq<X509>, ca: seq<X509>, cs: seq<X509>)
    requires NoDuplicates(root) && NoDuplicates(ca)
    ensures NoDuplicates(Distribute(root, ca, cs).0) && NoDuplicates(Distribute(root, ca, cs).1)
  {
    if cs != [] {
      var init := cs[..|cs| - 1];
      var last := cs[|cs| - 1];
      DistributeNoDuplicates(root, ca, init);
      var (r0, c0) := Distribute(root, ca, init);
      if SelfSigned(last) && forall x | x in r0 :: !HasThumbprint(x, last.thumbprint) {
        AppendNoDuplicates(r0, last);
      }
      if !SelfSigned(last) && forall x | x in c0 :: !HasThumbprint(x, last.thumbprint) {
        AppendNoDuplicates(c0, last);
      }
    }
  }

  /** `Save` keeps each of the three stores free of duplicates. */
  lemma SaveNoDuplicates(st: HostState, location: StoreLocation, cert: CertificateDetails, chain: seq<X509>)
    requires NoDuplicates(st.Store(location, My))
    requires NoDuplicates(st.Store(location, Root)) && NoDuplicates(st.Store(location, CertificateAuthority))
    ensures var st1 := SaveSpec(st, location, cert, chain).0;
      && NoDuplicates(st1.Store(location, My))
      && NoDuplicates(st1.Store(location, Root))
      && NoDuplicates(st1.Store(location, CertificateAuthority))
  {
    if cert.thumbprint.Some? {
      var my := RemoveMatching(st.Store(location, My), cert.thumbprint.value);
      RemoveMatchingNoDuplicates(st.Store(location, My), cert.thumbprint.value);
      if chain != [] {
        SaveStores(st, location, cert, chain);
        AddToStoreNoDuplicates(my, chain[0].(friendlyName := Show(cert.certificateName)));
        DistributeNoDuplicates(st.Store(location, Root), st.Store(location, CertificateAuthority), chain[1..]);
      } else {
        assert SaveSpec(st, location, cert, chain).0 == st.(stores := st.stores[(location, My) := my]);
      }
    }
  }

  /** A successful `Save` removes nothing from the Root and CA stores, adds
      only certificates of the chain after the leaf, self-signed ones to Root
      and the others to CA, and reports Downloaded without a path. */
  lemma SaveTrustStores(st: HostState, location: StoreLocation, cert: CertificateDetails, chain: seq<X509>)
    requires SaveSpec(st, location, cert, chain).1.Ok?
    ensures chain != []
    ensures var (st1, r) := SaveSpec(st, location, cert, chain);
      var root := st.Store(location, Root);
      var ca := st.Store(location, CertificateAuthority);
      var root1 := st1.Store(location, Root);
      var ca1 := st1.Store(location, CertificateAuthority);
      && r.value == DownloadResult(Downloaded, cert.certificateName, cert.thumbprint, None)
      && |root| <= |root1| && root1[..|root|] == root
      && |ca| <= |ca1| && ca1[..|ca|] == ca
      && (forall x | x in root1[|root|..] :: x in chain[1..] && SelfSigned(x))
      && (forall x | x in ca1[|ca|..] :: x in chain[1..] && !SelfSigned(x))
  {
    SaveStores(st, location, cert, chain);
    DistributeGrows(st.Store(location, Root), st.Store(location, CertificateAuthority), chain[1..]);
  }

  /** A certificate appended after others without its thumbprint is the
      first one found. */
  lemma {:induction false} FirstMatchAppended(s: seq<X509>, c: X509, t: string)
    requires forall x | x in s :: !HasThumbprint(x, t)
    requires HasThumbprint(c, t)
    ensures FirstMatch(s + [c], t) == Some(c)
  {
    if s != [] {
      assert (s + [c])[1..] == s[1..] + [c];
      assert s[0] in s;
      assert forall x | x in s[1..] :: x in s;
      FirstMatchAppended(s[1..], c, t);
    }
  }

  /** After a successful `Save` whose leaf has the identity's thumbprint, the
      certificate `Get` finds in My is the leaf, carrying the certificate
      name as its friendly name; so `Exists` holds exactly when the leaf has
      a private key. */
  lemma ExistsAfterSave(st: HostState, location: StoreLocation, cert: CertificateDetails, chain: seq<X509>)
    requires SaveSpec(st, location, cert, chain).1.Ok?
    requires chain != [] && cert.thumbprint.Some? && HasThumbprint(chain[0], cert.thumbprint.value)
    ensures var st1 := SaveSpec(st, location, cert, chain).0;
      && FirstMatch(st1.Store(location, My), cert.thumbprint.value) == Some(chain[0].(friendlyName := Show(cert.certificateName)))
      && Exists(st1, location, cert) == Ok(chain[0].HasPrivateKey())
  {
    var t := cert.thumbprint.value;
    var leaf := chain[0].(friendlyName := Show(cert.certificateName));
    var my := RemoveMatching(st.Store(location, My), t);
    assert forall x | x in my :: !HasThumbprint(x, leaf.thumbprint);
    SaveStores(st, location, cert, chain);
    var st1 := SaveSpec(st, location, cert, chain).0;
    assert st1.Store(location, My) == my + [leaf];
    FirstMatchAppended(my, leaf, t);
    assert Get(st1, location, cert.thumbprint) == Ok(Some(leaf));
  }
}
