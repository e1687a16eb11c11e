/**
 * Reading side of the EA tool: the walk over a buffer of chained
 * FILE_FULL_EA_INFORMATION records filled by the kernel's query primitive.
 *
 * Records sit back to back; each header's NextEntryOffset says how many
 * bytes after the record's own start the next one begins, and 0 marks the
 * last one. The walk here checks every read against the end of the buffer
 * and yields `Malformed` where a read would leave it.
 */
module EaDecoder {
  import opened EaLayout
  import opened EaResult
  import opened EaStatus

  // ---------------------------------------------------------------------
  // The chain

  /**
   * The start offsets of the records of the chain that begins at `p`, in
   * chain order; `Malformed` when a record does not fit in `buf` or a
   * nonzero NextEntryOffset points at or past its end.
   */
  function ChainFrom(buf: seq<byte>, p: nat): (r: Result<seq<nat>>)
    ensures r.Ok? ==> |r.value| > 0 && r.value[0] == p
    decreases |buf| - p
  {
    if !RecordFits(buf, p) then Malformed
    else
      var next := GetHeader(buf, p).nextEntryOffset;
      if next == 0 then Ok([p])
      else if p + next >= |buf| then Malformed
      else
        match ChainFrom(buf, p + next)
        case Malformed => Malformed
        case Ok(rest) => Ok([p] + rest)
  }

  /**
   * The walk visits records in chain order: each record but the last has a
   * nonzero NextEntryOffset and the next record starts that many bytes
   * after it; the walk stops at the first record whose offset is 0.
   */
  lemma {:induction false} ChainOrder(buf: seq<byte>, p: nat)
    requires ChainFrom(buf, p).Ok?
    ensures var ps := ChainFrom(buf, p).value;
      && (forall i :: 0 <= i < |ps| ==> RecordFits(buf, ps[i]) && p <= ps[i] < |buf|)
      && (forall i :: 0 <= i < |ps| - 1 ==>
            && GetHeader(buf, ps[i]).nextEntryOffset != 0
            && ps[i + 1] == ps[i] + GetHeader(buf, ps[i]).nextEntryOffset)
      && GetHeader(buf, ps[|ps| - 1]).nextEntryOffset == 0
    decreases |buf| - p
  {
    var next := GetHeader(buf, p).nextEntryOffset;
    var ps := ChainFrom(buf, p).value;
    if next == 0 {
      assert ps == [p];
    } else {
      var q := p + next;
      ChainOrder(buf, q);
      var rest := ChainFrom(buf, q).value;
      assert ps == [p] + rest;
      forall i | 1 <= i < |ps|
        ensures ps[i] == rest[i - 1]
      {
      }
      assert ps[|ps| - 1] == rest[|rest| - 1];
    }
  }

  /**
   * `ps` is a chain from `p` in `buf`: it starts at `p`, every record fits,
   * each record but the last has a nonzero NextEntryOffset that leads to
   * the next offset, inside the buffer, and the last record's offset is 0.
   */
  predicate IsChain(buf: seq<byte>, p: nat, ps: seq<nat>)
  {
    && |ps| > 0 && ps[0] == p
    && (forall i :: 0 <= i < |ps| ==> RecordFits(buf, ps[i]))
    && (forall i, j :: 0 <= i < |ps| && 0 <= j < |ps| && j == i + 1 ==> Links(buf, ps[i], ps[j]))
    && GetHeader(buf, ps[|ps| - 1]).nextEntryOffset == 0
  }

  /** The record at `a` has a nonzero NextEntryOffset that leads to `b`, inside the buffer. */
  predicate Links(buf: seq<byte>, a: nat, b: nat)
    requires RecordFits(buf, a)
  {
    && GetHeader(buf, a).nextEntryOffset != 0
    && b == a + GetHeader(buf, a).nextEntryOffset
    && b < |buf|
  }

  /** Every chain of fitting records linked by in-bounds offsets is walked to its end. */
  lemma {:induction false} ChainFromIsChain(buf: seq<byte>, p: nat, ps: seq<nat>)
    requires IsChain(buf, p, ps)
    ensures ChainFrom(buf, p) == Ok(ps)
    decreases |ps|
  {
    if |ps| > 1 {
      var rest := ps[1..];
      assert IsChain(buf, ps[1], rest) by {
        forall i | 0 <= i < |rest| ensures RecordFits(buf, rest[i]) {
          assert rest[i] == ps[i + 1];
        }
        forall i, j | 0 <= i < j < |rest| && j == i + 1 ensures Links(buf, rest[i], rest[j]) {
          assert rest[i] == ps[i + 1] && rest[j] == ps[j + 1];
        }
        assert rest[|rest| - 1] == ps[|ps| - 1];
      }
      ChainFromIsChain(buf, ps[1], rest);
      assert Links(buf, ps[0], ps[1]);
      assert ps == [p] + rest;
      assert ChainFrom(buf, p) == Ok([p] + rest);
    } else {
      assert RecordFits(buf, ps[0]) && GetHeader(buf, ps[0]).nextEntryOffset == 0;
      assert ps == [p];
    }
  }

  /** The walk from `p` succeeds with the offsets `ps` exactly when `ps` is a chain from `p`. */
  lemma ChainIsWalk(buf: seq<byte>, p: nat, ps: seq<nat>)
    ensures ChainFrom(buf, p) == Ok(ps) <==> IsChain(buf, p, ps)
  {
    if ChainFrom(buf, p) == Ok(ps) {
      ChainOrder(buf, p);
    }
    if IsChain(buf, p, ps) {
      ChainFromIsChain(buf, p, ps);
    }
  }

  /** The records that start at the offsets `ps`. */
  function RecordsAt(buf: seq<byte>, ps: seq<nat>): seq<EaRecord>
    requires forall i :: 0 <= i < |ps| ==> RecordFits(buf, ps[i])
  {
    seq(|ps|, i requires 0 <= i < |ps| => DecodeRecord(buf, ps[i]))
  }

  /**
   * Every record of the chain that begins at `p`, in chain order: the
   * record at `p`, then, when its NextEntryOffset is not 0, the records of
   * the chain that begins that many bytes further on.
   */
  function DecodeFrom(buf: seq<byte>, p: nat): Result<seq<EaRecord>>
    decreases |buf| - p
  {
    if !RecordFits(buf, p) then Malformed
    else
      var r := DecodeRecord(buf, p);
      if r.nextEntryOffset == 0 then Ok([r])
      else if p + r.nextEntryOffset >= |buf| then Malformed
      else Prepend([r], DecodeFrom(buf, p + r.nextEntryOffset))
  }

  /** Every record of a buffer filled by the query primitive. */
  function DecodeAll(buf: seq<byte>): Result<seq<EaRecord>>
  {
    DecodeFrom(buf, 0)
  }

  /** Put the records visited so far in front of what the rest of the walk yields. */
  function Prepend(visited: seq<EaRecord>, rest: Result<seq<EaRecord>>): Result<seq<EaRecord>>
  {
    match rest
    case Malformed => Malformed
    case Ok(rs) => Ok(visited + rs)
  }

  lemma PrependNothing(rest: Result<seq<EaRecord>>)
    ensures Prepend([], rest) == rest
  {
    if rest.Ok? {
      assert [] + rest.value == rest.value;
    }
  }

  /** Prepending twice is prepending the concatenation. */
  lemma PrependTwice(a: seq<EaRecord>, b: seq<EaRecord>, rest: Result<seq<EaRecord>>)
    ensures Prepend(a, Prepend(b, rest)) == Prepend(a + b, rest)
  {
    if rest.Ok? {
      assert a + (b + rest.value) == (a + b) + rest.value;
    }
  }

  /**
   * Decoding the chain record by record agrees with decoding the record at
   * each offset of the chain: both fail together, and otherwise yield the
   * same records.
   */
  lemma {:induction false} DecodeFollowsChain(buf: seq<byte>, p: nat)
    ensures DecodeFrom(buf, p).Ok? <==> ChainFrom(buf, p).Ok?
    ensures ChainFrom(buf, p).Ok? ==>
      && (forall i :: 0 <= i < |ChainFrom(buf, p).value| ==> RecordFits(buf, ChainFrom(buf, p).value[i]))
      && DecodeFrom(buf, p).value == RecordsAt(buf, ChainFrom(buf, p).value)
    decreases |buf| - p
  {
    if !RecordFits(buf, p) {
      assert ChainFrom(buf, p) == Malformed && DecodeFrom(buf, p) == Malformed;
    } else {
      var r := DecodeRecord(buf, p);
      var next := r.nextEntryOffset;
      assert next == GetHeader(buf, p).nextEntryOffset;
      if next == 0 {
        assert ChainFrom(buf, p) == Ok([p]) && DecodeFrom(buf, p) == Ok([r]);
        assert RecordsAt(buf, [p]) == [r];
      } else if p + next >= |buf| {
        assert ChainFrom(buf, p) == Malformed && DecodeFrom(buf, p) == Malformed;
      } else {
        var q := p + next;
        DecodeFollowsChain(buf, q);
        var chain, decoded := ChainFrom(buf, q), DecodeFrom(buf, q);
        assert DecodeFrom(buf, p) == Prepend([r], decoded);
        if chain.Ok? {
          var rest := chain.value;
          var ps := [p] + rest;
          assert ChainFrom(buf, p) == Ok(ps);
          forall i | 1 <= i < |ps|
            ensures ps[i] == rest[i - 1]
          {
          }
          RecordsAtCons(buf, p, rest);
        } else {
          assert ChainFrom(buf, p) == Malformed && decoded == Malformed;
        }
      }
    }
  }

  /** The records at `p` and then at `rest` are the record at `p` and then those at `rest`. */
  lemma RecordsAtCons(buf: seq<byte>, p: nat, rest: seq<nat>)
    requires RecordFits(buf, p)
    requires forall i :: 0 <= i < |rest| ==> RecordFits(buf, rest[i])
    ensures RecordsAt(buf, [p] + rest) == [DecodeRecord(buf, p)] + RecordsAt(buf, rest)
  {
    var ps := [p] + rest;
    var lhs, rhs := RecordsAt(buf, ps), [DecodeRecord(buf, p)] + RecordsAt(buf, rest);
    assert |lhs| == |rhs|;
    forall i | 0 <= i < |lhs| ensures lhs[i] == rhs[i] {
      if i > 0 {
        assert ps[i] == rest[i - 1];
      }
    }
  }

  // ---------------------------------------------------------------------
  // Chains built from records

  /**
   * A record that can be placed in a chain: its fields fit their widths,
   * and a nonzero NextEntryOffset leaves room for the whole record before
   * the next one (the gap is padding, as for 4-byte alignment).
   */
  predicate Placeable(r: EaRecord)
  {
    ValidRecord(r) && (r.nextEntryOffset == 0 || r.nextEntryOffset >= RecordSize(|r.name|, |r.value|))
  }

  /** The zero bytes between the end of `r` and the record its NextEntryOffset leads to. */
  function Padding(r: EaRecord): (pad: seq<byte>)
    requires Placeable(r)
    ensures r.nextEntryOffset != 0 ==> RecordSize(|r.name|, |r.value|) + |pad| == r.nextEntryOffset
    ensures r.nextEntryOffset == 0 ==> pad == []
  {
    if r.nextEntryOffset == 0 then [] else seq(r.nextEntryOffset - RecordSize(|r.name|, |r.value|), _ => 0)
  }

  /**
   * A non-empty list of records that can be laid out as one chain: each
   * record but the last points at least past itself, and the last points
   * nowhere.
   */
  predicate WellChained(rs: seq<EaRecord>)
  {
    && |rs| > 0
    && (forall i :: 0 <= i < |rs| ==> Placeable(rs[i]))
    && (forall i :: 0 <= i < |rs| - 1 ==> rs[i].nextEntryOffset != 0)
    && rs[|rs| - 1].nextEntryOffset == 0
  }

  /** The records laid out in order, each followed by its padding. */
  function Serialize(rs: seq<EaRecord>): seq<byte>
    requires forall i :: 0 <= i < |rs| ==> Placeable(rs[i])
  {
    if rs == [] then []
    else
      assert Placeable(rs[0]);
      RecordBytes(rs[0]) + Padding(rs[0]) + Serialize(rs[1..])
  }

  /**
   * A well-chained list of records, laid out with its padding anywhere in
   * a buffer, is walked in order and decodes to exactly those records.
   */
  lemma {:induction false} DecodeSerialized(rs: seq<EaRecord>, pre: seq<byte>, post: seq<byte>)
    requires WellChained(rs)
    ensures DecodeFrom(pre + Serialize(rs) + post, |pre|) == Ok(rs)
    decreases |rs|
  {
    var r := rs[0];
    assert Placeable(r);
    var rb, pad := RecordBytes(r), Padding(r);
    var rest := Serialize(rs[1..]);
    var buf := pre + rb + (pad + rest + post);
    ThreeParts(pre, rb, pad, rest, post);
    assert pre + Serialize(rs) + post == buf;
    DecodeRecordBytes(r, pre, pad + rest + post);
    if |rs| == 1 {
      LastRecord(buf, |pre|, r);
      assert rs == [r];
    } else {
      WellChainedTail(rs);
      var pre' := pre + rb + pad;
      assert |rest| > 0 by {
        assert rest == RecordBytes(rs[1..][0]) + Padding(rs[1..][0]) + Serialize(rs[1..][1..]);
      }
      DecodeSerialized(rs[1..], pre', post);
      LinkedRecord(buf, |pre|, |pre'|, r, rs[1..]);
      HeadTail(rs);
    }
  }

  lemma HeadTail(rs: seq<EaRecord>)
    requires |rs| > 0
    ensures [rs[0]] + rs[1..] == rs
  {
  }

  /** Regrouping `pre`, a record, its padding and what follows them. */
  lemma ThreeParts(pre: seq<byte>, rec: seq<byte>, pad: seq<byte>, rest: seq<byte>, post: seq<byte>)
    ensures pre + (rec + pad + rest) + post == pre + rec + (pad + rest + post)
    ensures pre + rec + (pad + rest + post) == (pre + rec + pad) + rest + post
  {
  }

  /** A record whose NextEntryOffset is 0 ends the chain. */
  lemma LastRecord(buf: seq<byte>, p: nat, r: EaRecord)
    requires RecordFits(buf, p) && DecodeRecord(buf, p) == r && r.nextEntryOffset == 0
    ensures DecodeFrom(buf, p) == Ok([r])
  {
  }

  /** A record that points at a well-formed chain heads it. */
  lemma LinkedRecord(buf: seq<byte>, p: nat, q: nat, r: EaRecord, rest: seq<EaRecord>)
    requires RecordFits(buf, p) && DecodeRecord(buf, p) == r
    requires r.nextEntryOffset != 0 && q == p + r.nextEntryOffset < |buf|
    requires DecodeFrom(buf, q) == Ok(rest)
    ensures DecodeFrom(buf, p) == Ok([r] + rest)
  {
  }

  lemma WellChainedTail(rs: seq<EaRecord>)
    requires WellChained(rs) && |rs| > 1
    ensures WellChained(rs[1..])
  {
    var t := rs[1..];
    forall i | 0 <= i < |t| ensures Placeable(t[i]) {
      assert t[i] == rs[i + 1];
    }
    forall i | 0 <= i < |t| - 1 ensures t[i].nextEntryOffset != 0 {
      assert t[i] == rs[i + 1];
    }
  }

  /** In particular, a buffer holding exactly such a chain decodes to its records. */
  lemma DecodeAllSerialized(rs: seq<EaRecord>)
    requires WellChained(rs)
    ensures DecodeAll(Serialize(rs)) == Ok(rs)
  {
    DecodeSerialized(rs, [], []);
    assert [] + Serialize(rs) + [] == Serialize(rs);
  }

  /**
   * Two records aligned to 4 bytes: the first, of 11 bytes, points 12 bytes
   * on, past one byte of padding; the buffer decodes to both records.
   */
  lemma AlignedChainDecodes()
    ensures var rs := [EaRecord(12, 0, [97], [98]), EaRecord(0, 0, [99], [100])];
      && |Serialize(rs)| == 23
      && DecodeAll(Serialize(rs)) == Ok(rs)
  {
    var rs := [EaRecord(12, 0, [97], [98]), EaRecord(0, 0, [99], [100])];
    assert Placeable(rs[0]) && Placeable(rs[1]);
    assert rs[1..] == [rs[1]] && rs[1..][1..] == [];
    DecodeAllSerialized(rs);
  }

  // ---------------------------------------------------------------------
  // Lookup by name (EA_get_value_raw)

  /** The record is the one `EA_get_value_raw` wants: the name matches and the value is not empty. */
  predicate HasValueNamed(r: EaRecord, name: seq<byte>)
  {
    r.name == name && |r.value| > 0
  }

  /** The value of the first record, in order, that has this name and a non-empty value. */
  function FirstValue(rs: seq<EaRecord>, name: seq<byte>): Option<seq<byte>>
  {
    if rs == [] then None
    else if HasValueNamed(rs[0], name) then Some(rs[0].value)
    else FirstValue(rs[1..], name)
  }

  /**
   * `FirstValue` finds nothing exactly when no record has the name and a
   * value, and otherwise the value of the first record that has both.
   */
  lemma {:induction false} FirstValueIsFirst(rs: seq<EaRecord>, name: seq<byte>)
    ensures FirstValue(rs, name).None? <==> forall i :: 0 <= i < |rs| ==> !HasValueNamed(rs[i], name)
    ensures FirstValue(rs, name).Some? ==>
      exists i :: 0 <= i < |rs| && HasValueNamed(rs[i], name) && FirstValue(rs, name).value == rs[i].value
        && forall j :: 0 <= j < i ==> !HasValueNamed(rs[j], name)
  {
    if rs != [] && !HasValueNamed(rs[0], name) {
      FirstValueIsFirst(rs[1..], name);
      assert forall i :: 1 <= i < |rs| ==> rs[i] == rs[1..][i - 1];
      if FirstValue(rs, name).Some? {
        var i :| 0 <= i < |rs[1..]| && HasValueNamed(rs[1..][i], name) && FirstValue(rs, name).value == rs[1..][i].value
          && forall j :: 0 <= j < i ==> !HasValueNamed(rs[1..][j], name);
        assert HasValueNamed(rs[i + 1], name);
      }
    }
  }

  lemma FirstValueCons(r: EaRecord, rest: seq<EaRecord>, name: seq<byte>)
    ensures FirstValue([r] + rest, name) == if HasValueNamed(r, name) then Some(r.value) else FirstValue(rest, name)
  {
    assert ([r] + rest)[1..] == rest;
  }

  /**
   * What the loop of `EA_get_value_raw` computes from the record at `p` on:
   * it stops at the first record with the name and a non-empty value, or
   * with nothing at the record whose NextEntryOffset is 0.
   */
  function FindValueFrom(buf: seq<byte>, p: nat, name: seq<byte>): Result<Option<seq<byte>>>
    decreases |buf| - p
  {
    if !RecordFits(buf, p) then Malformed
    else
      var r := DecodeRecord(buf, p);
      if HasValueNamed(r, name) then Ok(Some(r.value))
      else if r.nextEntryOffset == 0 then Ok(None)
      else if p + r.nextEntryOffset >= |buf| then Malformed
      else FindValueFrom(buf, p + r.nextEntryOffset, name)
  }

  /** On a well-formed chain the lookup yields the first matching value of the decoded records. */
  lemma {:induction false} FindValueIsFirstMatch(buf: seq<byte>, p: nat, name: seq<byte>)
    requires DecodeFrom(buf, p).Ok?
    ensures FindValueFrom(buf, p, name) == Ok(FirstValue(DecodeFrom(buf, p).value, name))
    decreases |buf| - p
  {
    var r := DecodeRecord(buf, p);
    var next := r.nextEntryOffset;
    if next == 0 {
      assert DecodeFrom(buf, p) == Ok([r]);
      FirstValueCons(r, [], name);
    } else {
      var q := p + next;
      var rest := DecodeFrom(buf, q).value;
      assert DecodeFrom(buf, p) == Ok([r] + rest);
      FirstValueCons(r, rest, name);
      if !HasValueNamed(r, name) {
        FindValueIsFirstMatch(buf, q, name);
      }
    }
  }

  /**
   * `EA_get_header` on the cursor `p`, then the name that follows the header
   * and the value that follows the name's terminator.
   */
  method ReadRecord(buf: seq<byte>, p: nat) returns (record: EaRecord)
    requires RecordFits(buf, p)
    ensures record == DecodeRecord(buf, p)
    ensures |record.name| <= MaxNameLength && |record.value| < U16Limit
  {
    var h := GetHeader(buf, p);
    var eaName := Bytes(buf, NameOffset(p), h.eaNameLength);
    var v := ValueOffset(p, h.eaNameLength);
    record := EaRecord(h.nextEntryOffset, h.flags, eaName, Bytes(buf, v, h.eaValueLength));
  }

  /** Reads the value of the first record named `name` whose value is not empty. */
  method GetValueRaw(buf: seq<byte>, name: seq<byte>) returns (r: Result<Option<seq<byte>>>)
    ensures r == FindValueFrom(buf, 0, name)
    ensures DecodeAll(buf).Ok? ==> r == Ok(FirstValue(DecodeAll(buf).value, name))
  {
    if DecodeAll(buf).Ok? {
      FindValueIsFirstMatch(buf, 0, name);
    }
    var p: nat := 0;
    while true
      invariant FindValueFrom(buf, p, name) == FindValueFrom(buf, 0, name)
      decreases |buf| - p
    {
      if !RecordFits(buf, p) {
        return Malformed;
      }
      var record := ReadRecord(buf, p);
      if record.name == name && |record.value| > 0 {
        return Ok(Some(record.value));
      }
      var next := record.nextEntryOffset;
      if next == 0 {
        return Ok(None);
      }
      if p + next >= |buf| {
        return Malformed;
      }
      p := p + next;
    }
  }

  // ---------------------------------------------------------------------
  // Selection of the records EA_print shows

  /** With no name every record is shown; with a name, those whose name matches. */
  predicate Selected(r: EaRecord, filter: Option<seq<byte>>)
  {
    filter.None? || r.name == filter.value
  }

  /**
   * The records the loop of `EA_print` shows from the record at `p` on:
   * every selected record, and with a name it stops after the first one.
   */
  function VisitFrom(buf: seq<byte>, p: nat, filter: Option<seq<byte>>): Result<seq<EaRecord>>
    decreases |buf| - p
  {
    if !RecordFits(buf, p) then Malformed
    else
      var r := DecodeRecord(buf, p);
      var shown := if Selected(r, filter) then [r] else [];
      if Selected(r, filter) && filter.Some? then Ok(shown)
      else if r.nextEntryOffset == 0 then Ok(shown)
      else if p + r.nextEntryOffset >= |buf| then Malformed
      else Prepend(shown, VisitFrom(buf, p + r.nextEntryOffset, filter))
  }

  /** One step of `VisitFrom`: the record at `p` decides whether the walk goes on. */
  lemma VisitFromStep(buf: seq<byte>, p: nat, filter: Option<seq<byte>>)
    requires RecordFits(buf, p)
    ensures var r := DecodeRecord(buf, p);
      var shown := if Selected(r, filter) then [r] else [];
      VisitFrom(buf, p, filter) ==
        if Selected(r, filter) && filter.Some? then Ok(shown)
        else if r.nextEntryOffset == 0 then Ok(shown)
        else if p + r.nextEntryOffset >= |buf| then Malformed
        else Prepend(shown, VisitFrom(buf, p + r.nextEntryOffset, filter))
  {
  }

  /** The walk ends at a record it stops at: it adds that record if selected. */
  lemma VisitStops(buf: seq<byte>, p: nat, filter: Option<seq<byte>>, r: EaRecord, before: seq<EaRecord>)
    requires RecordFits(buf, p) && DecodeRecord(buf, p) == r
    requires (Selected(r, filter) && filter.Some?) || r.nextEntryOffset == 0
    ensures Prepend(before, VisitFrom(buf, p, filter)) == Ok(before + if Selected(r, filter) then [r] else [])
  {
  }

  /**
   * The walk passes on from a record it does not stop at, adding that
   * record if selected: what is still to come is the walk from the next
   * record.
   */
  lemma VisitGoesOn(buf: seq<byte>, p: nat, filter: Option<seq<byte>>, r: EaRecord,
                    before: seq<EaRecord>, shown: seq<EaRecord>, target: Result<seq<EaRecord>>)
    requires RecordFits(buf, p) && DecodeRecord(buf, p) == r
    requires !(Selected(r, filter) && filter.Some?)
    requires r.nextEntryOffset != 0 && p + r.nextEntryOffset < |buf|
    requires target == Prepend(before, VisitFrom(buf, p, filter))
    requires shown == before + if Selected(r, filter) then [r] else []
    ensures target == Prepend(shown, VisitFrom(buf, p + r.nextEntryOffset, filter))
  {
    PrependTwice(before, if Selected(r, filter) then [r] else [], VisitFrom(buf, p + r.nextEntryOffset, filter));
  }

  /** The first record named `name`, or nothing when none is. */
  function FirstNamed(rs: seq<EaRecord>, name: seq<byte>): (shown: seq<EaRecord>)
    ensures |shown| <= 1
  {
    if rs == [] then []
    else if rs[0].name == name then [rs[0]]
    else FirstNamed(rs[1..], name)
  }

  /**
   * `FirstNamed` is empty exactly when no record has the name, and
   * otherwise holds the first record that has it.
   */
  lemma {:induction false} FirstNamedIsFirst(rs: seq<EaRecord>, name: seq<byte>)
    ensures FirstNamed(rs, name) == [] <==> forall i :: 0 <= i < |rs| ==> rs[i].name != name
    ensures FirstNamed(rs, name) != [] ==>
      exists i :: 0 <= i < |rs| && FirstNamed(rs, name)[0] == rs[i] && rs[i].name == name
        && forall j :: 0 <= j < i ==> rs[j].name != name
  {
    if rs != [] && rs[0].name != name {
      FirstNamedIsFirst(rs[1..], name);
      assert forall i :: 1 <= i < |rs| ==> rs[i] == rs[1..][i - 1];
      if FirstNamed(rs, name) != [] {
        var i :| 0 <= i < |rs[1..]| && FirstNamed(rs, name)[0] == rs[1..][i] && rs[1..][i].name == name
          && forall j :: 0 <= j < i ==> rs[1..][j].name != name;
        assert rs[i + 1].name == name;
      }
    }
  }

  lemma FirstNamedCons(r: EaRecord, rest: seq<EaRecord>, name: seq<byte>)
    ensures FirstNamed([r] + rest, name) == if r.name == name then [r] else FirstNamed(rest, name)
  {
    assert ([r] + rest)[1..] == rest;
  }

  /** Without a name the walk shows every record of the chain, and fails exactly where decoding does. */
  lemma {:induction false} VisitAllIsDecode(buf: seq<byte>, p: nat)
    ensures VisitFrom(buf, p, None) == DecodeFrom(buf, p)
    decreases |buf| - p
  {
    if RecordFits(buf, p) {
      var r := DecodeRecord(buf, p);
      if r.nextEntryOffset != 0 && p + r.nextEntryOffset < |buf| {
        VisitAllIsDecode(buf, p + r.nextEntryOffset);
      }
    }
  }

  /** With a name, on a well-formed chain, the walk shows only the first record of that name. */
  lemma {:induction false} VisitNamedIsFirstNamed(buf: seq<byte>, p: nat, name: seq<byte>)
    requires DecodeFrom(buf, p).Ok?
    ensures VisitFrom(buf, p, Some(name)) == Ok(FirstNamed(DecodeFrom(buf, p).value, name))
    decreases |buf| - p
  {
    var r := DecodeRecord(buf, p);
    var next := r.nextEntryOffset;
    VisitFromStep(buf, p, Some(name));
    if next == 0 {
      assert DecodeFrom(buf, p) == Ok([r]);
      FirstNamedCons(r, [], name);
    } else {
      var q := p + next;
      var rest := DecodeFrom(buf, q).value;
      assert DecodeFrom(buf, p) == Ok([r] + rest);
      FirstNamedCons(r, rest, name);
      if r.name != name {
        VisitNamedIsFirstNamed(buf, q, name);
        PrependNothing(VisitFrom(buf, q, Some(name)));
      }
    }
  }

  /**
   * The records `EA_print` shows: all of them when `filter` is None, and
   * only the first one whose name matches otherwise.
   */
  method VisitRecords(buf: seq<byte>, filter: Option<seq<byte>>) returns (r: Result<seq<EaRecord>>)
    ensures r == VisitFrom(buf, 0, filter)
  {
    var p: nat := 0;
    var shown: seq<EaRecord> := [];
    ghost var target := VisitFrom(buf, 0, filter);
    PrependNothing(target);
    assert target == Prepend(shown, VisitFrom(buf, p, filter));
    while true
      invariant target == Prepend(shown, VisitFrom(buf, p, filter))
      decreases |buf| - p
    {
      if !RecordFits(buf, p) {
        r := Malformed;
        break;
      }
      var record := ReadRecord(buf, p);
      ghost var before := shown;
      var selected := filter.None? || record.name == filter.value;
      if selected {
        shown := shown + [record];
      }
      assert shown == before + if Selected(record, filter) then [record] else [];
      var next := record.nextEntryOffset;
      if (selected && filter.Some?) || next == 0 {
        VisitStops(buf, p, filter, record, before);
        r := Ok(shown);
        break;
      }
      if p + next >= |buf| {
        assert VisitFrom(buf, p, filter) == Malformed;
        r := Malformed;
        break;
      }
      VisitGoesOn(buf, p, filter, record, before, shown, target);
      p := p + next;
    }
  }

  // ---------------------------------------------------------------------
  // The name comparison of the source

  /** Size of the zero-filled local array each name is copied into before it is compared. */
  const NameWindowSize: nat := 256

  /** The local name array after `memset` to 0 and `memcpy` of the record's name. */
  function NameWindow(name: seq<byte>): (w: seq<byte>)
    requires |name| <= MaxNameLength
    ensures |w| == NameWindowSize
  {
    name + seq(NameWindowSize - |name|, _ => 0)
  }

  /**
   * The refill of the local name array on each pass of the walks: `memset`
   * of its 256 bytes to 0, then `memcpy` of EaNameLength bytes from byte 8
   * of the record at `p`.
   */
  method LoadNameWindow(window: array<byte>, buf: seq<byte>, p: nat)
    requires window.Length == NameWindowSize && RecordFits(buf, p)
    modifies window
    ensures window[..] == NameWindow(DecodeRecord(buf, p).name)
  {
    var i := 0;
    while i < NameWindowSize
      invariant 0 <= i <= NameWindowSize
      invariant forall k :: 0 <= k < i ==> window[k] == 0
    {
      window[i] := 0;
      i := i + 1;
    }
    var from := NameOffset(p);
    var nameLength := GetHeader(buf, p).eaNameLength;
    i := 0;
    while i < nameLength
      invariant 0 <= i <= nameLength
      invariant forall k :: 0 <= k < i ==> window[k] == buf[from + k]
      invariant forall k :: i <= k < NameWindowSize ==> window[k] == 0
    {
      window[i] := buf[from + i];
      i := i + 1;
    }
    ghost var name := DecodeRecord(buf, p).name;
    BytesIsSlice(buf, from, nameLength);
    assert name == buf[from .. from + nameLength];
    forall k | 0 <= k < NameWindowSize ensures window[k] == NameWindow(name)[k] {
      if k < nameLength {
        assert name[k] == buf[from + k];
      }
    }
  }

  /** The byte at `i` of a C string held as its content: past the end reads its terminator. */
  function ByteAt(s: seq<byte>, i: nat): byte
  {
    if i < |s| then s[i] else 0
  }

  /** `strncmp(a, b, n) == 0`, looking from position `i` on. */
  predicate StrnEqualFrom(a: seq<byte>, b: seq<byte>, i: nat, n: nat)
    decreases n - i
  {
    i >= n || (ByteAt(a, i) == ByteAt(b, i) && (ByteAt(a, i) == 0 || StrnEqualFrom(a, b, i + 1, n)))
  }

  /** The source's match: `strncmp(eaname, EA_name, 256) == 0` over the name window. */
  predicate WindowMatches(query: seq<byte>, name: seq<byte>)
    requires |name| <= MaxNameLength
  {
    StrnEqualFrom(query, NameWindow(name), 0, NameWindowSize)
  }

  lemma {:induction false} WindowSuffix(query: seq<byte>, name: seq<byte>, i: nat)
    requires NoNul(query) && NoNul(name) && |name| <= MaxNameLength
    requires i <= |query| && i <= |name|
    ensures StrnEqualFrom(query, NameWindow(name), i, NameWindowSize) <==> query[i..] == name[i..]
    decreases |name| - i
  {
    var w := NameWindow(name);
    assert ByteAt(w, i) == ByteAt(name, i);
    if i < |query| && i < |name| {
      assert query[i..] == [query[i]] + query[i + 1..];
      assert name[i..] == [name[i]] + name[i + 1..];
      if query[i] == name[i] {
        WindowSuffix(query, name, i + 1);
      }
    } else if i < |query| {
      assert query[i] != 0;
    } else if i < |name| {
      assert name[i] != 0;
    }
  }

  /**
   * For names that hold no 0 byte, comparing the query with the zero-filled
   * 256-byte window agrees with comparing the two names exactly, which is
   * what the walks above do.
   */
  lemma WindowMatchIsExact(query: seq<byte>, name: seq<byte>)
    requires NoNul(query) && NoNul(name) && |name| <= MaxNameLength
    ensures WindowMatches(query, name) <==> query == name
  {
    WindowSuffix(query, name, 0);
  }

  // ---------------------------------------------------------------------
  // EA_read

  /** What the query primitive answers: a status, and the bytes it writes into the buffer. */
  datatype QueryReply = QueryReply(status: NtStatus, data: seq<byte>)

  /**
   * Asks the query primitive, given the buffer's size, for every EA of the
   * file; the primitive fills the front of `buf`, and its status is judged.
   */
  method EaRead(buf: array<byte>, query: nat -> QueryReply) returns (s: ReadStatus)
    requires |query(buf.Length).data| <= buf.Length
    modifies buf
    ensures buf[..|query(buf.Length).data|] == query(buf.Length).data
    ensures buf[|query(buf.Length).data|..] == old(buf[|query(buf.Length).data|..])
    ensures s == ClassifyQuery(query(buf.Length).status)
  {
    var reply := query(buf.Length);
    forall i | 0 <= i < |reply.data| {
      buf[i] := reply.data[i];
    }
    s := ClassifyQuery(reply.status);
  }
}
