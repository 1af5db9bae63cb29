/** Accounting for the bytes of a specification section, over any canonical codec, and
    XDR as one. */
module SpecSection {
  import opened Basics
  import opened InterfaceSpec
  import Xdr

  /** What stepping by the re-encoded length relies on: what is decoded re-encodes to the
      bytes it came from, no value encodes to nothing, and every value is decoded back
      from its encoding whatever follows. */
  ghost predicate Canonical<E(!new)>(c: Codec<E>) {
    && (forall b: seq<byte> :: c.decode(b).Some? ==> c.valid(c.decode(b).value) && c.encode(c.decode(b).value) <= b)
    && (forall e: E :: c.valid(e) ==> c.encode(e) != [])
    && (forall e: E, rest: seq<byte> {:trigger c.valid(e), c.encode(e) + rest} ::
          c.valid(e) ==> c.decode(c.encode(e) + rest) == Some(e))
  }

  function EncodeEntries<E>(c: Codec<E>, es: seq<E>): seq<byte> {
    if es == [] then [] else c.encode(es[0]) + EncodeEntries(c, es[1..])
  }

  ghost predicate AllValid<E>(c: Codec<E>, es: seq<E>) {
    forall i :: 0 <= i < |es| ==> c.valid(es[i])
  }

  /** Every byte is accounted for: the entries re-encode to exactly the bytes before the
      end of the reading, and reading stopped exactly when bytes are left, at bytes no
      entry can be decoded from. */
  ghost predicate Accounts<E>(c: Codec<E>, section: seq<byte>, offset: nat, r: Reading<E>) {
    && offset <= r.end <= |section|
    && AllValid(c, r.entries)
    && EncodeEntries(c, r.entries) == section[offset..r.end]
    && (r.stopped <==> r.end < |section|)
    && (r.stopped ==> c.decode(section[r.end..]).None?)
  }

  lemma {:induction false} ReadingAccounts<E(!new)>(c: Codec<E>, section: seq<byte>, offset: nat)
    requires Canonical(c) && offset <= |section|
    ensures ReadFrom(c, section, offset).Ok?
    ensures Accounts(c, section, offset, ReadFrom(c, section, offset).value)
    decreases |section| - offset
  {
    if offset < |section| && c.decode(section[offset..]).Some? {
      var entry := c.decode(section[offset..]).value;
      var encoded := c.encode(entry);
      assert encoded == section[offset..][..|encoded|] == section[offset..offset + |encoded|];
      ReadingAccounts(c, section, offset + |encoded|);
      var rest := ReadFrom(c, section, offset + |encoded|).value;
      assert ([entry] + rest.entries)[1..] == rest.entries;
      assert section[offset..rest.end] == encoded + section[offset + |encoded|..rest.end];
    }
  }

  lemma NothingRead<E(!new)>(c: Codec<E>, section: seq<byte>, offset: nat, tail: seq<byte>)
    requires (tail == [] || c.decode(tail).None?) && offset <= |section| && section[offset..] == tail
    ensures ReadFrom(c, section, offset) == Ok(Reading([], |section| - |tail|, tail != []))
  {
  }

  lemma FirstRead<E(!new)>(c: Codec<E>, section: seq<byte>, offset: nat, entry: E, rest: seq<byte>)
    requires Canonical(c) && c.valid(entry)
    requires offset <= |section| && section[offset..] == c.encode(entry) + rest
    ensures var next := offset + |c.encode(entry)|;
            && offset < next <= |section| && section[next..] == rest
            && ReadFrom(c, section, offset) == match ReadFrom(c, section, next)
                                               case Ok(r) => Ok(r.(entries := [entry] + r.entries))
                                               case Err => Err
  {
    var encoded := c.encode(entry);
    assert c.decode(encoded + rest) == Some(entry);
    assert section[offset + |encoded|..] == section[offset..][|encoded|..] == rest;
  }

  /** A section of encoded entries, followed by nothing or by bytes that cannot be decoded,
      reads back as those entries with exactly those bytes left over. */
  lemma {:induction false} EntriesReadBack<E(!new)>(
    c: Codec<E>, section: seq<byte>, offset: nat, es: seq<E>, tail: seq<byte>)
    requires Canonical(c) && AllValid(c, es) && (tail == [] || c.decode(tail).None?)
    requires offset <= |section| && section[offset..] == EncodeEntries(c, es) + tail
    ensures ReadFrom(c, section, offset) == Ok(Reading(es, |section| - |tail|, tail != []))
    decreases |es|
  {
    hide Canonical, ReadFrom;
    if es == [] {
      assert [] + tail == tail;
      NothingRead(c, section, offset, tail);
    } else {
      var encoded := c.encode(es[0]);
      var rest := EncodeEntries(c, es[1..]) + tail;
      assert encoded + EncodeEntries(c, es[1..]) + tail == encoded + rest;
      FirstRead(c, section, offset, es[0], rest);
      EntriesReadBack(c, section, offset + |encoded|, es[1..], tail);
      assert es == [es[0]] + es[1..];
    }
  }

  /** Two lists of entries with the same encoding are the same list. */
  lemma EncodingDeterminesEntries<E(!new)>(c: Codec<E>, es: seq<E>, fs: seq<E>)
    requires Canonical(c) && AllValid(c, es) && AllValid(c, fs)
    requires EncodeEntries(c, es) == EncodeEntries(c, fs)
    ensures es == fs
  {
    var section := EncodeEntries(c, es);
    assert section[0..] == section == section + [];
    EntriesReadBack(c, section, 0, es, []);
    EntriesReadBack(c, section, 0, fs, []);
  }

  /** The interface is that of entries whose encodings make up the section but for the
      trailing bytes; those cannot be decoded, and the stop before them is recorded. */
  ghost predicate ReadsAs(c: Codec<SpecEntry>, section: seq<byte>, i: ContractInterface, es: seq<SpecEntry>) {
    && i.undecodableTrailingBytes <= |section|
    && var end := |section| - i.undecodableTrailingBytes;
    && AllValid(c, es)
    && EncodeEntries(c, es) == section[..end]
    && DigestForm(i) == DigestForm(Canonicalise(AddEntries(EMPTY_INTERFACE, es)))
    && i.decodeDetail == (if end < |section| then Some(Stop(end, |es|)) else None)
    && (end < |section| ==> c.decode(section[end..]).None?)
  }

  /** The decoder over a canonical codec. It fails exactly when the first entry of a
      non-empty section cannot be decoded; otherwise every byte is accounted for. */
  lemma SectionAccounting(c: Codec<SpecEntry>, section: seq<byte>)
    requires Canonical(c)
    ensures DecodeSection(c, section).Err? <==> section != [] && c.decode(section).None?
    ensures DecodeSection(c, section).Ok? ==>
              exists es :: ReadsAs(c, section, DecodeSection(c, section).value, es)
  {
    hide Canonicalise;
    assert section[0..] == section;
    ReadingAccounts(c, section, 0);
    var r := ReadFrom(c, section, 0).value;
    if section == [] {
      EmptyReadsAs(c);
    } else if DecodeSection(c, section).Ok? {
      CanonicalKeepsReading(Collected(r, |section|));
      AddedDetailFree(EMPTY_INTERFACE, r.entries);
      CanonicalIgnoresReading(Collected(r, |section|), AddEntries(EMPTY_INTERFACE, r.entries));
      assert ReadsAs(c, section, DecodeSection(c, section).value, r.entries);
    }
  }

  lemma EmptyReadsAs(c: Codec<SpecEntry>)
    ensures ReadsAs(c, [], EMPTY_INTERFACE, [])
  {
    assert SortAllInputs([]) == [];
  }

  lemma CanonicalKeepsReading(i: ContractInterface)
    ensures Canonicalise(i).undecodableTrailingBytes == i.undecodableTrailingBytes
    ensures Canonicalise(i).decodeDetail == i.decodeDetail
  {
  }

  lemma CanonicalCarriesReading(i: ContractInterface, trailing: nat, stop: Option<Stop>)
    ensures Canonicalise(i.(undecodableTrailingBytes := trailing, decodeDetail := stop))
         == Canonicalise(i).(undecodableTrailingBytes := trailing, decodeDetail := stop)
  {
  }

  lemma CanonicalIgnoresReading(i: ContractInterface, j: ContractInterface)
    requires DigestForm(i) == DigestForm(j)
    ensures DigestForm(Canonicalise(i)) == DigestForm(Canonicalise(j))
  {
  }

  lemma EntriesNotEmpty<E(!new)>(c: Codec<E>, es: seq<E>)
    requires Canonical(c) && AllValid(c, es) && es != []
    ensures EncodeEntries(c, es) != []
  {
    assert c.valid(es[0]);
  }

  /** The interface of an undamaged section, and of one damaged after its first entries. */
  lemma DamagedTailKeepsEntries(c: Codec<SpecEntry>, es: seq<SpecEntry>, tail: seq<byte>)
    requires Canonical(c) && AllValid(c, es) && es != [] && (tail == [] || c.decode(tail).None?)
    ensures DecodeSection(c, EncodeEntries(c, es) + tail)
         == Ok(Canonicalise(AddEntries(EMPTY_INTERFACE, es)).(
                 undecodableTrailingBytes := |tail|,
                 decodeDetail := if tail == [] then None else Some(Stop(|EncodeEntries(c, es)|, |es|))))
  {
    hide Canonicalise, AddEntries, ReadFrom, EncodeEntries;
    var section := EncodeEntries(c, es) + tail;
    assert section[0..] == section;
    EntriesNotEmpty(c, es);
    EntriesReadBack(c, section, 0, es, tail);
    AddedDetailFree(EMPTY_INTERFACE, es);
    CanonicalCarriesReading(
      AddEntries(EMPTY_INTERFACE, es), |tail|, if tail == [] then None else Some(Stop(|EncodeEntries(c, es)|, |es|)));
  }

  lemma {:induction false} AddedDetailFree(i: ContractInterface, es: seq<SpecEntry>)
    ensures AddEntries(i, es).decodeDetail == i.decodeDetail
    ensures AddEntries(i, es).undecodableTrailingBytes == i.undecodableTrailingBytes
    decreases |es|
  {
    if es != [] {
      AddedDetailFree(AddEntry(i, es[0]), es[1..]);
    }
  }

  // ----- XDR -----

  /** The codec of one union of a schema: an entry always begins with a discriminant. */
  ghost function XdrCodec(schema: Xdr.Schema, number: nat): Codec<Xdr.Value> {
    Codec(
      (b: seq<byte>) =>
        match Xdr.DecodeAt(schema, Xdr.Union(number), b, 0)
        case Got(v, _) => Some(v)
        case Fail => None,
      (v: Xdr.Value) => if Xdr.Encodable(v) then Xdr.Encode(v) else [],
      (v: Xdr.Value) => Xdr.HasType(schema, Xdr.Union(number), v))
  }

  /** The laws hold of XDR for every schema, so they are not empty assumptions. */
  lemma XdrIsCanonical(schema: Xdr.Schema, number: nat)
    ensures Canonical(XdrCodec(schema, number))
  {
    var c, ty := XdrCodec(schema, number), Xdr.Union(number);
    forall b: seq<byte> | c.decode(b).Some? ensures c.valid(c.decode(b).value) && c.encode(c.decode(b).value) <= b {
      Xdr.DecodedReencodes(schema, ty, b, 0);
    }
    forall v: Xdr.Value | c.valid(v) ensures c.encode(v) != [] {
      Xdr.TypedIsEncodable(schema, ty, v);
    }
    forall v: Xdr.Value, rest: seq<byte> | c.valid(v) ensures c.decode(c.encode(v) + rest) == Some(v) {
      Xdr.TypedIsEncodable(schema, ty, v);
      OccursInItself(Xdr.Encode(v), rest);
      Xdr.DecodesEncoded(schema, ty, v, Xdr.Encode(v) + rest, 0);
    }
  }

  /** A codec for another representation of the same values. */
  ghost function Represented<A(!new), B>(c: Codec<A>, to: A -> Option<B>, from: B -> A): Codec<B> {
    Codec(
      (b: seq<byte>) => if c.decode(b).Some? then to(c.decode(b).value) else None,
      (e: B) => c.encode(from(e)),
      (e: B) => c.valid(from(e)) && to(from(e)) == Some(e))
  }

  /** Representing decoded values differently keeps a codec canonical when nothing decoded
      is represented with loss. */
  lemma RepresentedIsCanonical<A(!new), B(!new)>(c: Codec<A>, to: A -> Option<B>, from: B -> A)
    requires Canonical(c)
    requires forall a :: c.valid(a) && to(a).Some? ==> from(to(a).value) == a
    ensures Canonical(Represented(c, to, from))
  {
    var d := Represented(c, to, from);
    forall e: B, rest: seq<byte> | d.valid(e) ensures d.decode(d.encode(e) + rest) == Some(e) {
      assert c.decode(c.encode(from(e)) + rest) == Some(from(e));
    }
  }
}
