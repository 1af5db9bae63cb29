/** Version text and the compatibility rules of `engine.rs`. */
module Versions {
  import opened Basics
  import opened Decimals

  datatype Version = Version(major: nat, minor: nat, patch: nat) {
    /** The components are u64 values. */
    predicate Fits() {
      major < U64_LIMIT && minor < U64_LIMIT && patch < U64_LIMIT
    }

    function Text(): string {
      Decimal(major) + "." + Decimal(minor) + "." + Decimal(patch)
    }

    /** The derived order: by major, then minor, then patch. */
    predicate Before(other: Version) {
      major < other.major
        || (major == other.major && (minor < other.minor || (minor == other.minor && patch < other.patch)))
    }
  }

  /** Rust's `split('.')`: the pieces between dots, empty ones included. */
  function Split(s: string): (parts: seq<string>)
    ensures |parts| > 0
  {
    if s == "" then [""]
    else
      var rest := Split(s[1..]);
      if s[0] == '.' then [""] + rest else [[s[0]] + rest[0]] + rest[1..]
  }

  function Component(parts: seq<string>, i: nat): Result<nat> {
    if i < |parts| then ParseU64(parts[i]) else Err
  }

  function Parse(value: string): Result<Version> {
    var parts := Split(value);
    var major :- Component(parts, 0);
    var minor :- Component(parts, 1);
    var patch :- Component(parts, 2);
    if |parts| > 3 then Err else Ok(Version(major, minor, patch))
  }

  // ----- Reading and printing -----

  lemma {:induction false} SplitFirst(first: string, rest: string)
    requires '.' !in first
    ensures Split(first + "." + rest) == [first] + Split(rest)
  {
    var s := first + "." + rest;
    if first == "" {
      assert s[1..] == rest;
    } else {
      assert s[1..] == first[1..] + "." + rest;
      SplitFirst(first[1..], rest);
      assert [s[0]] + first[1..] == first;
    }
  }

  lemma {:induction false} SplitNone(s: string)
    requires '.' !in s
    ensures Split(s) == [s]
  {
    if s != "" {
      SplitNone(s[1..]);
      assert [s[0]] + s[1..] == s;
    }
  }

  function Joined(parts: seq<string>): string {
    if parts == [] then "" else if |parts| == 1 then parts[0] else parts[0] + "." + Joined(parts[1..])
  }

  /** Splitting loses nothing. */
  lemma {:induction false} SplitJoined(s: string)
    ensures Joined(Split(s)) == s
    ensures forall i :: 0 <= i < |Split(s)| ==> '.' !in Split(s)[i]
  {
    if s != "" {
      var rest := Split(s[1..]);
      SplitJoined(s[1..]);
      assert s == [s[0]] + s[1..];
      if s[0] == '.' {
        assert Split(s)[1..] == rest;
      } else {
        assert Split(s)[1..] == rest[1..];
        if |rest| > 1 {
          assert [s[0]] + rest[0] + "." + Joined(rest[1..]) == [s[0]] + (rest[0] + "." + Joined(rest[1..]));
        }
      }
    }
  }

  lemma SpellingHasNoDot(s: string, n: nat)
    requires Spells(s, n)
    ensures '.' !in s
  {
    var plus: bool, k: nat :| s == Spelling(plus, k, n);
    DecimalRead(n);
  }

  ghost predicate Spelt(value: string, v: Version) {
    exists a, b, c :: value == a + "." + (b + "." + c) && Spells(a, v.major) && Spells(b, v.minor) && Spells(c, v.patch)
  }

  /** The texts read as a version are exactly those that spell its three components, each
      a u64, between two dots. */
  lemma ParseIff(value: string, v: Version)
    ensures Parse(value) == Ok(v) <==> v.Fits() && Spelt(value, v)
  {
    hide Spells, ParseU64;
    if Parse(value) == Ok(v) {
      var parts := Split(value);
      SplitJoined(value);
      ParseU64Iff(parts[0], v.major);
      ParseU64Iff(parts[1], v.minor);
      ParseU64Iff(parts[2], v.patch);
      assert Joined(parts) == parts[0] + "." + (parts[1] + "." + parts[2]) by {
        assert parts[1..] == [parts[1], parts[2]] && parts[1..][1..] == [parts[2]];
        assert Joined([parts[2]]) == parts[2];
        assert Joined(parts[1..]) == parts[1] + "." + parts[2];
      }
    }
    if v.Fits() && Spelt(value, v) {
      var a, b, c :| value == a + "." + (b + "." + c) && Spells(a, v.major) && Spells(b, v.minor) && Spells(c, v.patch);
      SpellingHasNoDot(a, v.major);
      SpellingHasNoDot(b, v.minor);
      SpellingHasNoDot(c, v.patch);
      SplitFirst(a, b + "." + c);
      SplitFirst(b, c);
      SplitNone(c);
      assert Split(value) == [a, b, c];
      ParseU64Iff(a, v.major);
      ParseU64Iff(b, v.minor);
      ParseU64Iff(c, v.patch);
    }
  }

  /** Printing a version of u64 components and reading it gives the version back, and the
      printed text is the only shortest one that is read so. */
  lemma PrintedVersionIsRead(v: Version)
    requires v.Fits()
    ensures Parse(v.Text()) == Ok(v)
    ensures forall s :: Parse(s) == Ok(v) ==> |s| >= |v.Text()| && (|s| == |v.Text()| ==> s == v.Text())
  {
    hide Parse, ParseU64;
    Plain(v.major);
    Plain(v.minor);
    Plain(v.patch);
    assert v.Text() == Decimal(v.major) + "." + (Decimal(v.minor) + "." + Decimal(v.patch));
    assert Spelt(v.Text(), v);
    ParseIff(v.Text(), v);
    forall s | Parse(s) == Ok(v) ensures |s| >= |v.Text()| && (|s| == |v.Text()| ==> s == v.Text()) {
      ParseIff(s, v);
      var a, b, c :| s == a + "." + (b + "." + c) && Spells(a, v.major) && Spells(b, v.minor) && Spells(c, v.patch);
      Shortest(a, v.major);
      Shortest(b, v.minor);
      Shortest(c, v.patch);
    }
  }

  lemma Plain(n: nat)
    ensures Spells(Decimal(n), n)
  {
    assert Spelling(false, 0, n) == Decimal(n);
  }

  lemma Shortest(s: string, n: nat)
    requires Spells(s, n)
    ensures |s| >= |Decimal(n)| && (|s| == |Decimal(n)| ==> s == Decimal(n))
  {
    var plus: bool, k: nat :| s == Spelling(plus, k, n);
  }

  lemma Regrouped(z: string, a: string, b: string, c: string)
    ensures "+" + (z + (a + "." + b + "." + c)) == ("+" + (z + a)) + "." + (b + "." + c)
  {
  }

  /** A plus sign and superfluous zeros are accepted in every component. */
  lemma SignsAndZerosAreRead(v: Version, k: nat)
    requires v.Fits()
    ensures Parse("+" + (Zeros(k) + v.Text())) == Ok(v)
  {
    hide Decimal, Zeros, Parse, Spells;
    var tail := Decimal(v.minor) + "." + Decimal(v.patch);
    Plain(v.minor);
    Plain(v.patch);
    EverySpellingSpells(true, k, v.major);
    Regrouped(Zeros(k), Decimal(v.major), Decimal(v.minor), Decimal(v.patch));
    assert "+" + (Zeros(k) + v.Text()) == Spelling(true, k, v.major) + "." + tail;
    ParseIff("+" + (Zeros(k) + v.Text()), v);
  }

  // ----- Compatibility -----

  /** The version fields a document carries. */
  datatype Stamp = Stamp(apiVersion: string, specVersion: string)

  datatype InterpretationDepth = Full | Reduced

  function CheckCompatible(supported: Stamp, stamp: Stamp): Result<()> {
    if stamp.apiVersion != supported.apiVersion then Err
    else
      var found :- Parse(stamp.specVersion);
      var mine :- Parse(supported.specVersion);
      if found.major != mine.major then Err
      else if found.minor > mine.minor then Err
      else Ok(())
  }

  /** How much of a document stamped `stamp` an engine that writes `supported` can honour. */
  function CheckDocument(supported: Stamp, stamp: Stamp): Result<InterpretationDepth> {
    var _ :- CheckCompatible(supported, stamp);
    var found :- Parse(stamp.specVersion);
    var mine :- Parse(supported.specVersion);
    Ok(if found.Before(mine) then Reduced else Full)
  }

  /** The stamp of a family at a version. */
  function StampOf(family: string, v: Version): Stamp {
    Stamp(family, v.Text())
  }

  /** A document is accepted exactly when its family is the engine's and its version text
      spells one of the same major version and no newer minor one, whatever its patch; the
      acceptance is reduced exactly when that version is strictly older. */
  lemma AcceptedIff(family: string, mine: Version, stamp: Stamp)
    requires mine.Fits()
    ensures CheckDocument(StampOf(family, mine), stamp).Ok?
            <==> stamp.apiVersion == family
                 && exists v: Version :: v.Fits() && Spelt(stamp.specVersion, v) && v.major == mine.major
                      && v.minor <= mine.minor
    ensures CheckDocument(StampOf(family, mine), stamp) == Ok(Reduced)
            <==> stamp.apiVersion == family
                 && exists v: Version :: v.Fits() && Spelt(stamp.specVersion, v) && v.major == mine.major
                      && (v.minor < mine.minor || (v.minor == mine.minor && v.patch < mine.patch))
  {
    hide Parse, Spelt;
    PrintedVersionIsRead(mine);
    forall v ensures Parse(stamp.specVersion) == Ok(v) <==> v.Fits() && Spelt(stamp.specVersion, v) {
      ParseIff(stamp.specVersion, v);
    }
    if CheckDocument(StampOf(family, mine), stamp).Ok? {
      var v := Parse(stamp.specVersion).value;
      assert v.Fits() && Spelt(stamp.specVersion, v);
    }
  }

  /** Raising the engine's minor version loses no document, and reduces all it accepted. */
  lemma RaisingMinorKeepsDocuments(family: string, mine: Version, newer: Version, stamp: Stamp)
    requires mine.Fits() && newer.Fits() && newer.major == mine.major && newer.minor > mine.minor
    ensures CheckDocument(StampOf(family, mine), stamp).Ok?
            ==> CheckDocument(StampOf(family, newer), stamp) == Ok(Reduced)
  {
    hide Parse;
    PrintedVersionIsRead(mine);
    PrintedVersionIsRead(newer);
  }

  /** Two engines of one family each accept the other's documents exactly when they agree
      on major and minor version, and both in full only when they agree on the patch too. */
  lemma AcceptEachOtherIff(family: string, a: Version, b: Version)
    requires a.Fits() && b.Fits()
    ensures CheckDocument(StampOf(family, a), StampOf(family, b)).Ok?
            && CheckDocument(StampOf(family, b), StampOf(family, a)).Ok?
            <==> a.major == b.major && a.minor == b.minor
    ensures CheckDocument(StampOf(family, a), StampOf(family, b))
            == CheckDocument(StampOf(family, b), StampOf(family, a)) == Ok(Full)
            <==> a == b
  {
    hide Parse;
    PrintedVersionIsRead(a);
    PrintedVersionIsRead(b);
  }

  /** An engine at a first release, such as 1.0.0, never reads a document as reduced: one
      it accepts cannot be older. For every other version of the family some document is. */
  lemma ReducedPossibleIff(family: string, mine: Version)
    requires mine.Fits()
    ensures (exists stamp :: CheckDocument(StampOf(family, mine), stamp) == Ok(Reduced))
            <==> mine.minor > 0 || mine.patch > 0
  {
    hide Parse, Spelt;
    if mine.minor > 0 || mine.patch > 0 {
      OlderIsReduced(family, mine);
    }
    if exists stamp :: CheckDocument(StampOf(family, mine), stamp) == Ok(Reduced) {
      var stamp :| CheckDocument(StampOf(family, mine), stamp) == Ok(Reduced);
      AcceptedIff(family, mine, stamp);
    }
  }

  lemma OlderIsReduced(family: string, mine: Version)
    requires mine.Fits() && (mine.minor > 0 || mine.patch > 0)
    ensures exists stamp :: CheckDocument(StampOf(family, mine), stamp) == Ok(Reduced)
  {
    hide Parse;
    var older := if mine.minor > 0 then mine.(minor := mine.minor - 1) else mine.(patch := mine.patch - 1);
    PrintedVersionIsRead(mine);
    PrintedVersionIsRead(older);
    assert CheckDocument(StampOf(family, mine), StampOf(family, older)) == Ok(Reduced);
  }
}
