/** The decoding loop of `interface.rs`, proved against `InterfaceSpec`. */
module Interface {
  import opened Basics
  import opened InterfaceSpec
  import opened SpecSection
  import opened DeclaredInterface

  method DecodeSpecSection(c: Codec<SpecEntry>, section: seq<byte>) returns (r: Result<ContractInterface>)
    ensures r == DecodeSection(c, section)
    ensures Canonical(c) && r.Ok? ==> exists es :: ReadsAs(c, section, r.value, es) && Declares(r.value, es)
  {
    hide AddTexts, Texts, Canonicalise, Canonical, ReadsAs, Declares;
    if Canonical(c) && DecodeSection(c, section).Ok? {
      SectionDeclares(c, section);
    }
    if section == [] {
      return Ok(EMPTY_INTERFACE);
    }
    var interface_ := EMPTY_INTERFACE;
    var offset: nat := 0;
    var consumed: nat := 0;
    ghost var entries: seq<SpecEntry> := [];
    WithBefore([], ReadFrom(c, section, 0));
    while offset < |section|
      invariant consumed == |entries| && interface_ == AddEntries(EMPTY_INTERFACE, entries)
      invariant ReadFrom(c, section, 0) == Before(entries, ReadFrom(c, section, offset))
      decreases |section| - offset
    {
      var entry := c.decode(section[offset..]);
      if entry.None? {
        if consumed == 0 {
          return Err;
        }
        interface_ := interface_.(decodeDetail := Some(Stop(offset, consumed)));
        break;
      }
      var width := |c.encode(entry.value)|;
      if width == 0 {
        return Err;
      }
      BeforeOne(entries, entry.value, ReadFrom(c, section, offset + width));
      AddedLast(EMPTY_INTERFACE, entries, entry.value);
      offset := offset + width;
      consumed := consumed + 1;
      interface_ := AddEntry(interface_, entry.value);
      entries := entries + [entry.value];
    }
    AddedDetailFree(EMPTY_INTERFACE, entries);
    if interface_.decodeDetail.Some? {
      interface_ := interface_.(undecodableTrailingBytes := SaturatingSub(|section|, offset));
    }
    assert entries + [] == entries;
    r := Ok(Canonicalise(interface_));
  }

  ghost function Before<E>(entries: seq<E>, r: Result<Reading<E>>): Result<Reading<E>> {
    match r
    case Ok(reading) => Ok(reading.(entries := entries + reading.entries))
    case Err => Err
  }

  lemma WithBefore<E>(none: seq<E>, r: Result<Reading<E>>)
    requires none == []
    ensures Before(none, r) == r
  {
    if r.Ok? {
      assert none + r.value.entries == r.value.entries;
    }
  }

  lemma BeforeOne<E>(entries: seq<E>, e: E, r: Result<Reading<E>>)
    ensures Before(entries, Before([e], r)) == Before(entries + [e], r)
  {
    if r.Ok? {
      assert entries + ([e] + r.value.entries) == entries + [e] + r.value.entries;
    }
  }

  lemma {:induction false} AddedLast(i: ContractInterface, es: seq<SpecEntry>, e: SpecEntry)
    ensures AddEntries(i, es + [e]) == AddEntry(AddEntries(i, es), e)
    decreases |es|
  {
    if es == [] {
      assert [] + [e] == [e];
    } else {
      assert (es + [e])[1..] == es[1..] + [e];
      AddedLast(AddEntry(i, es[0]), es[1..], e);
    }
  }
}
