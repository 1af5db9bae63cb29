/** The identity of a deployed contract, apart from how it was observed, as `identity.rs`
    keeps it. SHA-256 is a parameter. */
module Identity {
  import opened Basics

  predicate IsContractId(s: string) {
    |s| == 56 && s[0] == 'C' && forall i :: 1 <= i < |s| ==> 'A' <= s[i] <= 'Z' || '2' <= s[i] <= '7'
  }

  type ContractId = s: string | IsContractId(s) witness seq(56, _ => 'C')

  datatype DigestAlgorithm = Sha256 | Sha512 {
    function HexLength(): nat {
      if Sha256? then 64 else 128
    }
  }

  datatype RawDigest = RawDigest(algorithm: DigestAlgorithm, value: string)

  predicate IsDigest(d: RawDigest) {
    |d.value| == d.algorithm.HexLength()
    && forall i :: 0 <= i < |d.value| ==> '0' <= d.value[i] <= '9' || 'a' <= d.value[i] <= 'f'
  }

  type Digest = d: RawDigest | IsDigest(d) witness RawDigest(Sha256, seq(64, _ => '0'))

  datatype ExecutableKind = Wasm | StellarAsset {
    function Text(): string {
      if Wasm? then "WASM" else "STELLAR_ASSET"
    }
  }

  datatype Network = Network(id: string, passphrase: string)

  datatype ContractIdentity = ContractIdentity(
    contractId: ContractId,
    networkId: string,
    passphrase: string,
    kind: ExecutableKind,
    wasmHash: Option<Digest>,
    resolvedAtLedger: nat,
    firstObserved: Option<nat>,
    lastObserved: Option<nat>)
  {
    /** A module digest is present exactly for a contract that has a module. */
    predicate Valid() {
      kind.Wasm? <==> wasmHash.Some?
    }

    /** Extends the observation window to include a ledger. */
    function ObservedAt(ledger: nat): ContractIdentity {
      this.(
        firstObserved := Some(if firstObserved.Some? && firstObserved.value < ledger then firstObserved.value
                              else ledger),
        lastObserved := Some(if lastObserved.Some? && lastObserved.value > ledger then lastObserved.value else ledger))
    }

    predicate IsUpgradedRelativeTo(other: ContractIdentity) {
      passphrase == other.passphrase && contractId == other.contractId && wasmHash != other.wasmHash
    }

    predicate IsSameIdentityAs(sha256: string -> string, other: ContractIdentity) {
      sha256(Canonical(this)) == sha256(Canonical(other))
    }
  }

  function NewIdentity(
    contractId: ContractId, network: Network, kind: ExecutableKind, wasmHash: Option<Digest>, resolvedAt: nat)
    : (r: Result<ContractIdentity>)
    ensures r.Ok? <==> network.passphrase != "" && (kind.Wasm? <==> wasmHash.Some?)
    ensures r.Ok? ==>
              && r.value.contractId == contractId && r.value.kind == kind && r.value.wasmHash == wasmHash
              && r.value.networkId == network.id && r.value.passphrase == network.passphrase
              && r.value.resolvedAtLedger == resolvedAt
              && r.value.Valid() && r.value.firstObserved == r.value.lastObserved == None
  {
    if network.passphrase == "" then Err
    else
      match (kind, wasmHash)
      case (Wasm, None) => Err
      case (StellarAsset, Some(_)) => Err
      case _ => Ok(ContractIdentity(contractId, network.id, network.passphrase, kind, wasmHash, resolvedAt, None, None))
  }

  function AddLine(text: string, line: string): string {
    text + line + "\n"
  }

  function HashText(wasmHash: Option<Digest>): string {
    if wasmHash.Some? then wasmHash.value.value else "-"
  }

  const HEADER := "amasario/contract-identity\n"

  /** The two network fields, each ended by a newline, after the header. */
  function NetworkLines(networkId: string, passphrase: string): string {
    AddLine(AddLine(HEADER, networkId), passphrase)
  }

  /** The text whose digest is the fingerprint. */
  function Canonical(a: ContractIdentity): string {
    AddLine(AddLine(AddLine(NetworkLines(a.networkId, a.passphrase), a.contractId), a.kind.Text()),
            HashText(a.wasmHash))
  }

  // ----- The canonical text determines the identity -----

  ghost predicate OneLine(s: string) {
    '\n' !in s
  }

  ghost predicate EndsLine(s: string) {
    s != "" && s[|s| - 1] == '\n'
  }

  /** The last line of a text can be told from what precedes it. */
  lemma LastLine(u: string, x: string, v: string, y: string)
    requires EndsLine(u) && EndsLine(v) && OneLine(x) && OneLine(y)
    requires AddLine(u, x) == AddLine(v, y)
    ensures u == v && x == y
  {
    var whole := AddLine(u, x);
    assert |u| + |x| == |v| + |y|;
    assert whole[|u| - 1] == whole[|v| - 1] == '\n';
    forall i | |u| <= i < |whole| - 1 ensures whole[i] != '\n' {
      assert whole[i] == x[i - |u|];
    }
    forall i | |v| <= i < |whole| - 1 ensures whole[i] != '\n' {
      assert whole[i] == y[i - |v|];
    }
    assert |u| == |v|;
    assert u == whole[..|u|] && v == whole[..|v|];
    assert x == whole[|u|..|u| + |x|] && y == whole[|v|..|v| + |y|];
  }

  lemma HashTextFacts(h: Option<Digest>, g: Option<Digest>)
    ensures OneLine(HashText(h))
    ensures HashText(h) == HashText(g) ==> h == g
  {
    if h.Some? {
      assert IsDigest(h.value);
    }
    if g.Some? {
      assert IsDigest(g.value);
    }
  }

  /** What the fingerprint identifies. */
  predicate SameFields(a: ContractIdentity, b: ContractIdentity) {
    && a.networkId == b.networkId && a.passphrase == b.passphrase
    && a.contractId == b.contractId && a.kind == b.kind && a.wasmHash == b.wasmHash
  }

  /** Two canonical texts agree exactly when the address, kind and digest agree and the
      network fields, run together, do. */
  lemma CanonicalEqualIff(a: ContractIdentity, b: ContractIdentity)
    ensures Canonical(a) == Canonical(b)
            <==> && a.contractId == b.contractId && a.kind == b.kind && a.wasmHash == b.wasmHash
                 && NetworkLines(a.networkId, a.passphrase) == NetworkLines(b.networkId, b.passphrase)
  {
    HashTextFacts(a.wasmHash, b.wasmHash);
    HashTextFacts(b.wasmHash, a.wasmHash);
    if Canonical(a) == Canonical(b) {
      var na, nb := NetworkLines(a.networkId, a.passphrase), NetworkLines(b.networkId, b.passphrase);
      var ca, cb := AddLine(na, a.contractId), AddLine(nb, b.contractId);
      LastLine(AddLine(ca, a.kind.Text()), HashText(a.wasmHash), AddLine(cb, b.kind.Text()), HashText(b.wasmHash));
      LastLine(ca, a.kind.Text(), cb, b.kind.Text());
      LastLine(na, a.contractId, nb, b.contractId);
      assert a.kind.Text()[0] == b.kind.Text()[0];
    }
  }

  lemma NetworkText(n: string, p: string)
    ensures NetworkLines(n, p) == HEADER + (n + ("\n" + (p + "\n")))
  {
  }

  /** Moving a newline from one network field to the other leaves the text as it was. */
  lemma NewlineMoves(u: string, v: string, p: string)
    ensures NetworkLines(u + "\n" + v, p) == NetworkLines(u, v + "\n" + p)
  {
    NetworkText(u + "\n" + v, p);
    NetworkText(u, v + "\n" + p);
    assert u + "\n" + v + ("\n" + (p + "\n")) == u + ("\n" + (v + "\n" + p + "\n"));
  }

  /** One-line network fields can be told apart, whatever the other record's fields are. */
  lemma NetworkFieldsRead(n: string, p: string, m: string, q: string)
    requires OneLine(n) && OneLine(p) && NetworkLines(n, p) == NetworkLines(m, q)
    ensures n == m && p == q
  {
    var whole := NetworkLines(n, p);
    var h := |HEADER|;
    NetworkText(n, p);
    NetworkText(m, q);
    assert |n| + |p| == |m| + |q|;
    forall i | 0 <= i < |n| ensures whole[h + i] == n[i] != '\n' {
    }
    forall i | 0 <= i < |p| ensures whole[h + |n| + 1 + i] == p[i] != '\n' {
    }
    assert whole[h + |m|] == '\n';
    assert |m| == |n|;
    assert n == whole[h..h + |n|] == m;
    assert p == whole[h + |n| + 1..h + |n| + 1 + |p|] == q;
  }

  /** No other identity has the canonical text of this one exactly when its network fields
      hold no newline. */
  lemma FingerprintUniqueIff(a: ContractIdentity)
    ensures (forall b :: Canonical(b) == Canonical(a) ==> SameFields(a, b))
            <==> OneLine(a.networkId) && OneLine(a.passphrase)
  {
    if OneLine(a.networkId) && OneLine(a.passphrase) {
      forall b | Canonical(b) == Canonical(a) ensures SameFields(a, b) {
        CanonicalEqualIff(a, b);
        NetworkFieldsRead(a.networkId, a.passphrase, b.networkId, b.passphrase);
      }
    } else if '\n' in a.networkId {
      var n := a.networkId;
      var i :| 0 <= i < |n| && n[i] == '\n';
      assert n == n[..i] + "\n" + n[i + 1..];
      var b := a.(networkId := n[..i], passphrase := n[i + 1..] + "\n" + a.passphrase);
      NewlineMoves(n[..i], n[i + 1..], a.passphrase);
      assert Canonical(b) == Canonical(a) && |b.networkId| < |a.networkId|;
    } else {
      var p := a.passphrase;
      var i :| 0 <= i < |p| && p[i] == '\n';
      assert p == p[..i] + "\n" + p[i + 1..];
      var b := a.(networkId := a.networkId + "\n" + p[..i], passphrase := p[i + 1..]);
      NewlineMoves(a.networkId, p[..i], p[i + 1..]);
      assert Canonical(b) == Canonical(a) && |b.networkId| > |a.networkId|;
    }
  }

  // ----- What an accepted record says -----

  /** Of two accepted records one is an upgrade of the other exactly when they were resolved
      for one address on networks of one passphrase and with different modules. When the
      network's name and passphrase are one line each, they have one canonical text exactly
      when they were resolved from the same network, address, kind and module. The ledger
      makes no difference to either. */
  lemma AcceptedComparedIff(
    c: ContractId, n: Network, k: ExecutableKind, w: Option<Digest>, l: nat,
    c': ContractId, n': Network, k': ExecutableKind, w': Option<Digest>, l': nat)
    requires NewIdentity(c, n, k, w, l).Ok? && NewIdentity(c', n', k', w', l').Ok?
    ensures NewIdentity(c, n, k, w, l).value.IsUpgradedRelativeTo(NewIdentity(c', n', k', w', l').value)
            <==> n.passphrase == n'.passphrase && c == c' && w != w'
    ensures OneLine(n.id) && OneLine(n.passphrase) ==>
              (Canonical(NewIdentity(c, n, k, w, l).value) == Canonical(NewIdentity(c', n', k', w', l').value)
               <==> n == n' && c == c' && k == k' && w == w')
  {
    var a, b := NewIdentity(c, n, k, w, l).value, NewIdentity(c', n', k', w', l').value;
    CanonicalEqualIff(a, b);
    if OneLine(n.id) && OneLine(n.passphrase) && Canonical(a) == Canonical(b) {
      NetworkFieldsRead(a.networkId, a.passphrase, b.networkId, b.passphrase);
    }
  }

  /** The canonical text, line by line: the header, the network's name and passphrase, the
      address, the word for the kind, and the module's digest or a dash. */
  lemma AcceptedText(c: ContractId, n: Network, k: ExecutableKind, w: Option<Digest>, l: nat)
    requires NewIdentity(c, n, k, w, l).Ok?
    ensures Canonical(NewIdentity(c, n, k, w, l).value)
         == "amasario/contract-identity\n" + n.id + "\n" + n.passphrase + "\n" + c + "\n"
            + (match w
               case None => "STELLAR_ASSET\n-\n"
               case Some(digest) => "WASM\n" + digest.value + "\n")
  {
    var a := NewIdentity(c, n, k, w, l).value;
    var lines := NetworkLines(n.id, n.passphrase) + c + "\n";
    NetworkText(n.id, n.passphrase);
    assert NetworkLines(n.id, n.passphrase) == HEADER + n.id + "\n" + n.passphrase + "\n";
    match w
    case None => assert "STELLAR_ASSET" + "\n" + ("-" + "\n") == "STELLAR_ASSET\n-\n";
    case Some(digest) => assert "WASM" + "\n" + (digest.value + "\n") == "WASM\n" + digest.value + "\n";
    assert Canonical(a) == lines + (a.kind.Text() + "\n" + (HashText(w) + "\n"));
  }

  // ----- Identity and upgrade -----

  /** Two valid records are the same identity or one is an upgrade of the other, and never
      both, exactly when they are of one address on one chain and, if their modules agree,
      the chain goes by one name. The digest need only tell these two texts apart. */
  lemma SameOrUpgraded(sha256: string -> string, a: ContractIdentity, b: ContractIdentity)
    requires a.Valid() && b.Valid()
    requires OneLine(a.networkId) && OneLine(a.passphrase)
    requires sha256(Canonical(a)) == sha256(Canonical(b)) ==> Canonical(a) == Canonical(b)
    ensures !(a.IsSameIdentityAs(sha256, b) && a.IsUpgradedRelativeTo(b))
    ensures a.IsSameIdentityAs(sha256, b) || a.IsUpgradedRelativeTo(b)
            <==> && a.passphrase == b.passphrase && a.contractId == b.contractId
                 && (a.wasmHash == b.wasmHash ==> a.networkId == b.networkId)
    ensures a.IsUpgradedRelativeTo(b) <==> b.IsUpgradedRelativeTo(a)
  {
    CanonicalEqualIff(a, b);
    if Canonical(a) == Canonical(b) {
      NetworkFieldsRead(a.networkId, a.passphrase, b.networkId, b.passphrase);
    }
  }

  // ----- The observation window -----

  function ObservedAll(a: ContractIdentity, ledgers: seq<nat>): ContractIdentity
    decreases |ledgers|
  {
    if ledgers == [] then a else ObservedAll(a.ObservedAt(ledgers[0]), ledgers[1..])
  }

  ghost predicate Least(before: Option<nat>, ledgers: seq<nat>, m: nat) {
    && (m in ledgers || before == Some(m))
    && (forall l :: l in ledgers ==> m <= l)
    && (before.Some? ==> m <= before.value)
  }

  ghost predicate Greatest(before: Option<nat>, ledgers: seq<nat>, m: nat) {
    && (m in ledgers || before == Some(m))
    && (forall l :: l in ledgers ==> l <= m)
    && (before.Some? ==> before.value <= m)
  }

  /** After any observations the window runs from the least ledger ever observed to the
      greatest, and nothing else has changed: not the identity, nor its canonical text. */
  lemma {:induction false} WindowIsTheRange(a: ContractIdentity, ledgers: seq<nat>)
    requires ledgers != []
    ensures var r := ObservedAll(a, ledgers);
            && r.firstObserved.Some? && Least(a.firstObserved, ledgers, r.firstObserved.value)
            && r.lastObserved.Some? && Greatest(a.lastObserved, ledgers, r.lastObserved.value)
            && r == a.(firstObserved := r.firstObserved, lastObserved := r.lastObserved)
            && Canonical(r) == Canonical(a)
    decreases |ledgers|
  {
    hide Canonical;
    var next := a.ObservedAt(ledgers[0]);
    assert Canonical(next) == Canonical(a) by {
      CanonicalEqualIff(next, a);
    }
    assert ledgers == [ledgers[0]] + ledgers[1..];
    if |ledgers| > 1 {
      WindowIsTheRange(next, ledgers[1..]);
    }
  }

  /** The order of the observations, and repeating them, make no difference. */
  lemma ObservationOrderIrrelevant(a: ContractIdentity, ledgers: seq<nat>, others: seq<nat>)
    requires forall l :: l in ledgers <==> l in others
    ensures ObservedAll(a, ledgers) == ObservedAll(a, others)
  {
    var l, o := if ledgers == [] then 0 else ledgers[0], if others == [] then 0 else others[0];
    assert (l in ledgers <==> l in others) && (o in ledgers <==> o in others);
    if ledgers != [] && others != [] {
      WindowIsTheRange(a, ledgers);
      WindowIsTheRange(a, others);
    }
  }
}
