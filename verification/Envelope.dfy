/**
  The signed segment envelope: verification from its own bytes, and continuity
  with the local chain when the segment is of a chain this store writes.

  Ed25519, the digest and the JSON serialisers are the fields of `Host`.
 */
module Envelope {
  import opened Ledger
  import opened Wrappers
  import Sorting

  const ENVELOPE_SCHEMA := "polis.bundle/2"
  const BIND_MESSAGE_LABEL := "polis.bind/1"

  type Bytes = seq<int>

  datatype PrincipalKind = Human | Device | Agent | Org

  datatype PrincipalCard = PrincipalCard(
    principalId: string,
    kind: PrincipalKind,
    pubkey: Option<string>,
    parentId: Option<string>,
    displayName: Option<string>)

  datatype Segment = Segment(fromSeq: int, toSeq: int, prevHashAtFrom: string, headHash: string)

  datatype Header = Header(
    schema: string,
    chainId: string,
    device: PrincipalCard,
    human: PrincipalCard,
    segment: Segment,
    payloadSha256: string)

  datatype BindPayload = BindPayload(
    human: PrincipalCard,
    device: PrincipalCard,
    chainId: string,
    headHash: string,
    signature: string)

  datatype RedactionPayload = RedactionPayload(chainId: string, seqNo: int, eventSeq: int)

  datatype Redaction = Full | Gist | Stub

  datatype PayloadPrompt = PayloadPrompt(id: int, bodyHash: string, redaction: Redaction, text: Option<string>)

  datatype Payload = Payload(
    events: Rows,
    prompts: seq<PayloadPrompt>,
    binds: seq<BindPayload>,
    redactions: seq<RedactionPayload>)

  datatype Envelope = Envelope(header: Header, signature: string, payload: Payload)

  /** The functions the verifier calls into: digests, key decoding, serialisers and the signature check. */
  datatype Host = Host(
    sha: Hasher,
    hexDecode: string -> Option<Bytes>,
    principalId: Bytes -> string,
    deviceId: (Bytes, string) -> string,
    headerLine: Header -> string,
    payloadJson: Payload -> string,
    bindJson: BindPayload -> string,
    redactionJson: RedactionPayload -> string,
    verifyHex: (string, string, string) -> bool)

  datatype VerifyError =
    | Schema
    | IdMismatch
    | DeviceMismatch
    | BadSignature
    | NoBind
    | BadBindSignature
    | PayloadHash
    | EventHash(seqNo: int)
    | Linkage(seqNo: int)
    | BadSegment
    | BindHashMismatch(seqNo: int)
    | BodyHash(promptId: int)
    | Continuity
    | RedactionHashMismatch(seqNo: int)

  datatype Verified = Verified(
    chainId: string,
    human: string,
    deviceName: string,
    segment: Segment,
    events: nat,
    prompts: nat,
    fullBodies: nat,
    binds: nat)

  // ---------------------------------------------------------------------
  // What each numbered check asks
  // ---------------------------------------------------------------------

  predicate HumanIsTheirKey(host: Host, h: Header) {
    && h.human.pubkey.Some?
    && host.hexDecode(h.human.pubkey.value).Some?
    && host.principalId(host.hexDecode(h.human.pubkey.value).value) == h.human.principalId
    && h.human.kind == Human
  }

  predicate DeviceIsTheChain(host: Host, h: Header)
    requires HumanIsTheirKey(host, h)
  {
    && h.device.displayName.Some?
    && h.device.kind == Device
    && h.device.parentId == Some(h.human.principalId)
    && host.deviceId(host.hexDecode(h.human.pubkey.value).value, h.device.displayName.value) == h.device.principalId
    && h.device.principalId == h.chainId
  }

  function BindMessage(chainId: string, headHash: string): string {
    BIND_MESSAGE_LABEL + "\n" + chainId + "\n" + headHash
  }

  function FindBind(binds: seq<BindPayload>, chainId: string): Option<BindPayload> {
    if binds == [] then None
    else if binds[0].chainId == chainId then Some(binds[0])
    else FindBind(binds[1..], chainId)
  }

  predicate BindNamesBoth(env: Envelope) {
    var b := FindBind(env.payload.binds, env.header.chainId);
    b.Some? && b.value.device.principalId == env.header.chainId
    && b.value.human.principalId == env.header.human.principalId
  }

  predicate BindSigned(host: Host, env: Envelope)
    requires HumanIsTheirKey(host, env.header) && BindNamesBoth(env)
  {
    var b := FindBind(env.payload.binds, env.header.chainId).value;
    host.verifyHex(env.header.human.pubkey.value, BindMessage(b.chainId, b.headHash), b.signature)
  }

  /** The payload's events, in sequence order, are the contiguous linked run the header names. */
  ghost predicate SegmentHolds(host: Host, env: Envelope) {
    var rows := SortBySeq(env.payload.events);
    var s := env.header.segment;
    && rows != [] && ValidRun(host.sha, rows)
    && rows[0].seqNo == s.fromSeq && rows[|rows| - 1].seqNo == s.toSeq
    && rows[0].prevHash == s.prevHashAtFrom && rows[|rows| - 1].entryHash == s.headHash
  }

  predicate CommitsToBind(host: Host, env: Envelope, e: LedgerEventRow) {
    e.kind == "principal_bind" && e.refId == Some(env.header.chainId) ==>
      exists i | 0 <= i < |env.payload.binds| :: host.sha(host.bindJson(env.payload.binds[i])) == e.payloadHash
  }

  predicate CommitsToRedaction(host: Host, env: Envelope, e: LedgerEventRow) {
    e.kind == "redaction" ==>
      exists i | 0 <= i < |env.payload.redactions| ::
        && env.payload.redactions[i].eventSeq == e.seqNo
        && host.sha(host.redactionJson(env.payload.redactions[i])) == e.payloadHash
  }

  function PromptEvent(rows: Rows, id: int): Option<LedgerEventRow> {
    if rows == [] then None
    else if rows[0].kind == "prompt" && rows[0].promptId == Some(id) then Some(rows[0])
    else PromptEvent(rows[1..], id)
  }

  predicate ShipsBody(p: PayloadPrompt) {
    p.redaction == Full && p.text.Some?
  }

  /** A shipped body hashes to its row, and the prompt's event commits to the same hash. */
  predicate BodyHolds(host: Host, rows: Rows, p: PayloadPrompt) {
    && (ShipsBody(p) ==> host.sha(p.text.value) == p.bodyHash)
    && (PromptEvent(rows, p.id).Some? ==> PromptEvent(rows, p.id).value.payloadHash == p.bodyHash)
  }

  function FullBodies(prompts: seq<PayloadPrompt>): nat {
    if prompts == [] then 0
    else FullBodies(prompts[..|prompts| - 1]) + (if ShipsBody(prompts[|prompts| - 1]) then 1 else 0)
  }

  ghost predicate CardsHold(host: Host, h: Header) {
    h.schema == ENVELOPE_SCHEMA && HumanIsTheirKey(host, h) && DeviceIsTheChain(host, h)
  }

  ghost predicate HeaderSigned(host: Host, env: Envelope)
    requires HumanIsTheirKey(host, env.header)
  {
    host.verifyHex(env.header.human.pubkey.value, host.headerLine(env.header), env.signature)
  }

  ghost predicate PayloadIsTheOneSigned(host: Host, env: Envelope) {
    host.sha(host.payloadJson(env.payload)) == env.header.payloadSha256
  }

  ghost predicate HeaderHolds(host: Host, env: Envelope) {
    && CardsHold(host, env.header)
    && HeaderSigned(host, env)
    && PayloadIsTheOneSigned(host, env)
    && BindNamesBoth(env)
    && BindSigned(host, env)
  }

  ghost predicate EventsCommit(host: Host, env: Envelope) {
    var rows := SortBySeq(env.payload.events);
    && (forall i | 0 <= i < |rows| :: CommitsToBind(host, env, rows[i]))
    && (forall i | 0 <= i < |rows| :: CommitsToRedaction(host, env, rows[i]))
  }

  ghost predicate BodiesHold(host: Host, env: Envelope) {
    forall i | 0 <= i < |env.payload.prompts| ::
      BodyHolds(host, SortBySeq(env.payload.events), env.payload.prompts[i])
  }

  /** Everything an accepted envelope is known to satisfy. */
  ghost predicate Accepts(host: Host, env: Envelope) {
    HeaderHolds(host, env) && SegmentHolds(host, env) && EventsCommit(host, env) && BodiesHold(host, env)
  }

  ghost predicate EndsAreNamed(rows: Rows, s: Segment) {
    rows != [] && rows[0].seqNo == s.fromSeq && rows[|rows| - 1].seqNo == s.toSeq
  }

  /** Row i is the first not to follow its predecessor's number, and nothing before it failed. */
  ghost predicate GapAt(sha: Hasher, rows: Rows, i: int) {
    0 < i < |rows| && ValidRun(sha, rows[..i]) && rows[i].seqNo != rows[i - 1].seqNo + 1
  }

  /** Row i, numbered s, follows in number but does not link, and nothing before it failed. */
  ghost predicate FailsToLink(sha: Hasher, rows: Rows, prevHashAtFrom: string, i: int, s: int) {
    && 0 <= i < |rows| && rows[i].seqNo == s && ValidRun(sha, rows[..i])
    && (i > 0 ==> rows[i].seqNo == rows[i - 1].seqNo + 1 && rows[0].prevHash == prevHashAtFrom)
    && rows[i].prevHash != (if i == 0 then prevHashAtFrom else rows[i - 1].entryHash)
  }

  /** Row i, numbered s, follows and links but does not recompute, and nothing before it failed. */
  ghost predicate FailsToRecompute(sha: Hasher, rows: Rows, i: int, s: int) {
    && 0 <= i < |rows| && rows[i].seqNo == s && ValidRun(sha, rows[..i])
    && (i > 0 ==> rows[i].seqNo == rows[i - 1].seqNo + 1 && rows[i].prevHash == rows[i - 1].entryHash)
    && !Recomputes(sha, rows[i])
  }

  // Each refusal names a check that failed after every check before it had passed.

  ghost predicate HeaderRefuses(host: Host, env: Envelope, e: VerifyError) {
    var h := env.header;
    match e
    case Schema => h.schema != ENVELOPE_SCHEMA
    case IdMismatch => h.schema == ENVELOPE_SCHEMA && !HumanIsTheirKey(host, h)
    case DeviceMismatch => h.schema == ENVELOPE_SCHEMA && HumanIsTheirKey(host, h) && !DeviceIsTheChain(host, h)
    case BadSignature => CardsHold(host, h) && !HeaderSigned(host, env)
    case PayloadHash => CardsHold(host, h) && HeaderSigned(host, env) && !PayloadIsTheOneSigned(host, env)
    case NoBind =>
      CardsHold(host, h) && HeaderSigned(host, env) && PayloadIsTheOneSigned(host, env) && !BindNamesBoth(env)
    case BadBindSignature =>
      && CardsHold(host, h) && HeaderSigned(host, env) && PayloadIsTheOneSigned(host, env)
      && BindNamesBoth(env) && !BindSigned(host, env)
    case _ => false
  }

  ghost predicate SegmentRefuses(sha: Hasher, rows: Rows, s: Segment, e: VerifyError) {
    match e
    case BadSegment =>
      || !EndsAreNamed(rows, s)
      || (rows[0].prevHash == s.prevHashAtFrom
          && ((exists i :: GapAt(sha, rows, i)) || (ValidRun(sha, rows) && rows[|rows| - 1].entryHash != s.headHash)))
    case Linkage(seqNo) => EndsAreNamed(rows, s) && exists i :: FailsToLink(sha, rows, s.prevHashAtFrom, i, seqNo)
    case EventHash(seqNo) =>
      && EndsAreNamed(rows, s) && rows[0].prevHash == s.prevHashAtFrom
      && exists i :: FailsToRecompute(sha, rows, i, seqNo)
    case _ => false
  }

  ghost predicate FirstUncommitted(host: Host, env: Envelope, rows: Rows, i: int, e: VerifyError) {
    && 0 <= i < |rows|
    && match e
       case BindHashMismatch(s) =>
         && rows[i].seqNo == s && !CommitsToBind(host, env, rows[i])
         && forall k | 0 <= k < i :: CommitsToBind(host, env, rows[k])
       case RedactionHashMismatch(s) =>
         && rows[i].seqNo == s && !CommitsToRedaction(host, env, rows[i])
         && (forall k | 0 <= k < |rows| :: CommitsToBind(host, env, rows[k]))
         && forall k | 0 <= k < i :: CommitsToRedaction(host, env, rows[k])
       case _ => false
  }

  ghost predicate FirstWrongBody(host: Host, env: Envelope, rows: Rows, i: int, e: VerifyError) {
    && 0 <= i < |env.payload.prompts| && e == BodyHash(env.payload.prompts[i].id)
    && !BodyHolds(host, rows, env.payload.prompts[i])
    && forall k | 0 <= k < i :: BodyHolds(host, rows, env.payload.prompts[k])
  }

  ghost predicate Refutes(host: Host, env: Envelope, e: VerifyError) {
    var rows := SortBySeq(env.payload.events);
    || HeaderRefuses(host, env, e)
    || (HeaderHolds(host, env) && SegmentRefuses(host.sha, rows, env.header.segment, e))
    || (HeaderHolds(host, env) && SegmentHolds(host, env) && exists i :: FirstUncommitted(host, env, rows, i, e))
    || (HeaderHolds(host, env) && SegmentHolds(host, env) && EventsCommit(host, env)
        && exists i :: FirstWrongBody(host, env, rows, i, e))
  }

  // ---------------------------------------------------------------------
  // The verifier
  // ---------------------------------------------------------------------

  /** The header's own checks: who signed, what they signed, and that they are bound to the chain. */
  method VerifyHeader(host: Host, env: Envelope) returns (r: Option<VerifyError>)
    ensures r.None? <==> HeaderHolds(host, env)
    ensures r.Some? ==> HeaderRefuses(host, env, r.value)
  {
    var h := env.header;
    if h.schema != ENVELOPE_SCHEMA {
      return Some(Schema);
    }
    if !HumanIsTheirKey(host, h) {
      return Some(IdMismatch);
    }
    if !DeviceIsTheChain(host, h) {
      return Some(DeviceMismatch);
    }
    if !host.verifyHex(h.human.pubkey.value, host.headerLine(h), env.signature) {
      return Some(BadSignature);
    }
    if host.sha(host.payloadJson(env.payload)) != h.payloadSha256 {
      return Some(PayloadHash);
    }
    if !BindNamesBoth(env) {
      return Some(NoBind);
    }
    if !BindSigned(host, env) {
      return Some(BadBindSignature);
    }
    return None;
  }

  /** Walk the sorted events once, keeping the previous hash and number. */
  method VerifySegment(host: Host, env: Envelope, events: Rows) returns (r: Option<VerifyError>)
    requires events == SortBySeq(env.payload.events)
    ensures r.None? <==> SegmentHolds(host, env)
    ensures r.Some? ==> SegmentRefuses(host.sha, events, env.header.segment, r.value)
  {
    hide Ledger.SortBySeq, Ledger.Recomputes;
    var s := env.header.segment;
    if |events| == 0 {
      return Some(BadSegment);
    }
    var first, last := events[0], events[|events| - 1];
    if first.seqNo != s.fromSeq || last.seqNo != s.toSeq {
      return Some(BadSegment);
    }
    if first.prevHash != s.prevHashAtFrom {
      assert FailsToLink(host.sha, events, s.prevHashAtFrom, 0, first.seqNo);
      return Some(Linkage(first.seqNo));
    }
    var prev, prevSeq := first.prevHash, first.seqNo - 1;
    for i := 0 to |events|
      invariant ValidRun(host.sha, events[..i])
      invariant prev == if i == 0 then events[0].prevHash else events[i - 1].entryHash
      invariant prevSeq == if i == 0 then events[0].seqNo - 1 else events[i - 1].seqNo
    {
      var e := events[i];
      if e.seqNo != prevSeq + 1 {
        assert !Contiguous(events) && GapAt(host.sha, events, i);
        return Some(BadSegment);
      }
      if e.prevHash != prev {
        assert FailsToLink(host.sha, events, s.prevHashAtFrom, i, e.seqNo);
        return Some(Linkage(e.seqNo));
      }
      if !Recomputes(host.sha, e) {
        assert FailsToRecompute(host.sha, events, i, e.seqNo);
        return Some(EventHash(e.seqNo));
      }
      ExtendRun(host.sha, events, i);
      prev, prevSeq := e.entryHash, e.seqNo;
    }
    assert events[..|events|] == events;
    if last.entryHash != s.headHash {
      return Some(BadSegment);
    }
    return None;
  }

  lemma ExtendRun(sha: Hasher, rows: Rows, i: nat)
    requires i < |rows| && ValidRun(sha, rows[..i]) && Recomputes(sha, rows[i])
    requires i > 0 ==> rows[i].seqNo == rows[i - 1].seqNo + 1 && rows[i].prevHash == rows[i - 1].entryHash
    ensures ValidRun(sha, rows[..i + 1])
  {
    hide Ledger.Recomputes;
  }

  /** The events' commitments: every bind and redaction event's payload is carried. */
  method VerifyCommitments(host: Host, env: Envelope, events: Rows) returns (r: Option<VerifyError>)
    requires events == SortBySeq(env.payload.events)
    ensures r.None? <==> EventsCommit(host, env)
    ensures r.Some? ==> exists i :: FirstUncommitted(host, env, events, i, r.value)
  {
    hide Ledger.SortBySeq, CommitsToBind, CommitsToRedaction;
    for i := 0 to |events|
      invariant forall k | 0 <= k < i :: CommitsToBind(host, env, events[k])
    {
      if !CommitsToBind(host, env, events[i]) {
        assert FirstUncommitted(host, env, events, i, BindHashMismatch(events[i].seqNo));
        return Some(BindHashMismatch(events[i].seqNo));
      }
    }
    for i := 0 to |events|
      invariant forall k | 0 <= k < i :: CommitsToRedaction(host, env, events[k])
    {
      if !CommitsToRedaction(host, env, events[i]) {
        assert FirstUncommitted(host, env, events, i, RedactionHashMismatch(events[i].seqNo));
        return Some(RedactionHashMismatch(events[i].seqNo));
      }
    }
    return None;
  }

  /** The bodies: each shipped text and each prompt event agrees with its row; shipped texts are counted. */
  method VerifyBodies(host: Host, env: Envelope, events: Rows) returns (r: Result<nat, VerifyError>)
    requires events == SortBySeq(env.payload.events)
    ensures r.Ok? <==> BodiesHold(host, env)
    ensures r.Ok? ==> r.value == FullBodies(env.payload.prompts)
    ensures r.Err? ==> exists i :: FirstWrongBody(host, env, events, i, r.error)
  {
    hide Ledger.SortBySeq, BodyHolds;
    var prompts := env.payload.prompts;
    var fullBodies := 0;
    for i := 0 to |prompts|
      invariant forall k | 0 <= k < i :: BodyHolds(host, events, prompts[k])
      invariant fullBodies == FullBodies(prompts[..i])
    {
      if !BodyHolds(host, events, prompts[i]) {
        assert FirstWrongBody(host, env, events, i, BodyHash(prompts[i].id));
        return Err(BodyHash(prompts[i].id));
      }
      assert prompts[..i + 1][..i] == prompts[..i];
      if ShipsBody(prompts[i]) {
        fullBodies := fullBodies + 1;
      }
    }
    assert prompts[..|prompts|] == prompts;
    return Ok(fullBodies);
  }

  /** What an accepted envelope is summarised as. */
  ghost predicate Summarises(v: Verified, env: Envelope) {
    && v.chainId == env.header.chainId == env.header.device.principalId
    && v.human == env.header.human.principalId
    && Some(v.deviceName) == env.header.device.displayName
    && v.segment == env.header.segment
    && v.events == |env.payload.events| == v.segment.toSeq - v.segment.fromSeq + 1
    && v.prompts == |env.payload.prompts|
    && v.fullBodies == FullBodies(env.payload.prompts)
    && v.binds == |env.payload.binds|
  }

  /** Verify an envelope from its bytes alone. */
  method Verify(host: Host, env: Envelope) returns (r: Result<Verified, VerifyError>)
    ensures r.Ok? <==> Accepts(host, env)
    ensures r.Ok? ==> Summarises(r.value, env)
    ensures r.Err? ==> Refutes(host, env, r.error)
  {
    hide Ledger.SortBySeq, SegmentHolds, EventsCommit, BodiesHold, HeaderRefuses, SegmentRefuses, FirstUncommitted,
      FirstWrongBody;
    var refused := VerifyHeader(host, env);
    if refused.Some? {
      return Err(refused.value);
    }
    var events := SortBySeq(env.payload.events);
    refused := VerifySegment(host, env, events);
    if refused.Some? {
      return Err(refused.value);
    }
    refused := VerifyCommitments(host, env, events);
    if refused.Some? {
      return Err(refused.value);
    }
    var bodies := VerifyBodies(host, env, events);
    if bodies.Err? {
      return Err(bodies.error);
    }
    SegmentLength(host, env);
    var h := env.header;
    return Ok(Verified(h.chainId, h.human.principalId, h.device.displayName.value, h.segment,
                       |events|, |env.payload.prompts|, bodies.value, |env.payload.binds|));
  }

  lemma SegmentLength(host: Host, env: Envelope)
    requires SegmentHolds(host, env)
    ensures |SortBySeq(env.payload.events)| == |env.payload.events|
    ensures |env.payload.events| == env.header.segment.toSeq - env.header.segment.fromSeq + 1
  {
    hide Ledger.SortBySeq, Ledger.Recomputes;
    var rows := SortBySeq(env.payload.events);
    SortBySeqMembers(env.payload.events);
    SeqCounts(rows, |rows| - 1);
  }

  // ---------------------------------------------------------------------
  // There is only one refusal an envelope can get
  // ---------------------------------------------------------------------

  lemma PrefixOfRun(sha: Hasher, rows: Rows, i: nat, j: nat)
    requires i <= j <= |rows| && ValidRun(sha, rows[..j])
    ensures ValidRun(sha, rows[..i])
  {
    hide Ledger.Recomputes;
    var short, long := rows[..i], rows[..j];
    assert forall k | 0 <= k < i :: short[k] == long[k];
  }

  /** The row at which the walk stops, and what it finds there. */
  ghost predicate StopsAt(sha: Hasher, rows: Rows, s: Segment, i: int, e: VerifyError) {
    match e
    case BadSegment => rows != [] && rows[0].prevHash == s.prevHashAtFrom && GapAt(sha, rows, i)
    case Linkage(seqNo) => FailsToLink(sha, rows, s.prevHashAtFrom, i, seqNo)
    case EventHash(seqNo) =>
      rows != [] && rows[0].prevHash == s.prevHashAtFrom && FailsToRecompute(sha, rows, i, seqNo)
    case _ => false
  }

  lemma StopBreaksTheRun(sha: Hasher, rows: Rows, s: Segment, i: int, e: VerifyError)
    requires StopsAt(sha, rows, s, i, e)
    ensures 0 <= i < |rows| && ValidRun(sha, rows[..i])
    ensures i > 0 || e.EventHash? ==> !ValidRun(sha, rows[..i + 1])
    ensures i == 0 ==> (e.Linkage? <==> rows[0].prevHash != s.prevHashAtFrom)
    ensures i > 0 ==> rows[0].prevHash == s.prevHashAtFrom
  {
    hide Ledger.Recomputes;
    var more := rows[..i + 1];
    assert more[i] == rows[i] && (i > 0 ==> more[i - 1] == rows[i - 1]);
  }

  lemma OneStop(sha: Hasher, rows: Rows, s: Segment, i: int, e: VerifyError, j: int, f: VerifyError)
    requires StopsAt(sha, rows, s, i, e) && StopsAt(sha, rows, s, j, f) && i <= j
    ensures e == f
  {
    StopBreaksTheRun(sha, rows, s, i, e);
    StopBreaksTheRun(sha, rows, s, j, f);
    if i < j {
      PrefixOfRun(sha, rows, i + 1, j);
    }
    hide Ledger.Recomputes, Ledger.ValidRun;
  }

  lemma WholeRunsNeverStop(sha: Hasher, rows: Rows, s: Segment, i: int, e: VerifyError)
    requires ValidRun(sha, rows) && rows != [] && rows[0].prevHash == s.prevHashAtFrom
    ensures !StopsAt(sha, rows, s, i, e)
  {
    hide Ledger.ValidRun;
    if StopsAt(sha, rows, s, i, e) {
      StopBreaksTheRun(sha, rows, s, i, e);
      assert rows[..|rows|] == rows;
      PrefixOfRun(sha, rows, i + 1, |rows|);
    }
  }

  lemma RefusalStops(sha: Hasher, rows: Rows, s: Segment, e: VerifyError)
    requires SegmentRefuses(sha, rows, s, e) && EndsAreNamed(rows, s)
    ensures (exists i :: StopsAt(sha, rows, s, i, e))
            || (e == BadSegment && ValidRun(sha, rows) && rows[0].prevHash == s.prevHashAtFrom
                && rows[|rows| - 1].entryHash != s.headHash)
  {
    hide Ledger.ValidRun, Ledger.Recomputes;
    match e
    case BadSegment =>
      if i :| GapAt(sha, rows, i) {
        assert StopsAt(sha, rows, s, i, e);
      }
    case Linkage(seqNo) =>
      var i :| FailsToLink(sha, rows, s.prevHashAtFrom, i, seqNo);
      assert StopsAt(sha, rows, s, i, e);
    case EventHash(seqNo) =>
      var i :| FailsToRecompute(sha, rows, i, seqNo);
      assert StopsAt(sha, rows, s, i, e);
    case _ =>
  }

  lemma SegmentRefusalIsUnique(sha: Hasher, rows: Rows, s: Segment, e: VerifyError, f: VerifyError)
    requires SegmentRefuses(sha, rows, s, e) && SegmentRefuses(sha, rows, s, f)
    ensures e == f
  {
    hide Ledger.ValidRun, StopsAt;
    if EndsAreNamed(rows, s) {
      RefusalStops(sha, rows, s, e);
      RefusalStops(sha, rows, s, f);
      hide SegmentRefuses;
      if i :| StopsAt(sha, rows, s, i, e) {
        if j :| StopsAt(sha, rows, s, j, f) {
          if i <= j {
            OneStop(sha, rows, s, i, e, j, f);
          } else {
            OneStop(sha, rows, s, j, f, i, e);
          }
        } else {
          WholeRunsNeverStop(sha, rows, s, i, e);
        }
      } else if j :| StopsAt(sha, rows, s, j, f) {
        WholeRunsNeverStop(sha, rows, s, j, f);
      }
    }
  }

  /** A refusing segment check refuses a segment that does not hold. */
  lemma SegmentRefusalIsRight(host: Host, env: Envelope, e: VerifyError)
    requires SegmentRefuses(host.sha, SortBySeq(env.payload.events), env.header.segment, e)
    ensures !SegmentHolds(host, env)
  {
    hide Ledger.SortBySeq, StopsAt, Ledger.ValidRun;
    var rows, s := SortBySeq(env.payload.events), env.header.segment;
    if EndsAreNamed(rows, s) {
      RefusalStops(host.sha, rows, s, e);
      hide SegmentRefuses;
      if SegmentHolds(host, env) {
        forall i
          ensures !StopsAt(host.sha, rows, s, i, e)
        {
          WholeRunsNeverStop(host.sha, rows, s, i, e);
        }
      }
    }
  }

  /** The refusals that remain once header and segment hold. */
  ghost predicate RefusedLater(host: Host, env: Envelope, rows: Rows, e: VerifyError) {
    || (exists i :: FirstUncommitted(host, env, rows, i, e))
    || (EventsCommit(host, env) && exists i :: FirstWrongBody(host, env, rows, i, e))
  }

  lemma HeaderRefusalIsRight(host: Host, env: Envelope, e: VerifyError, f: VerifyError)
    requires HeaderRefuses(host, env, e)
    ensures !HeaderHolds(host, env) && (HeaderRefuses(host, env, f) ==> e == f)
  {
  }

  lemma PastTheSegment(host: Host, env: Envelope, e: VerifyError)
    requires Refutes(host, env, e) && HeaderHolds(host, env) && SegmentHolds(host, env)
    ensures RefusedLater(host, env, SortBySeq(env.payload.events), e)
  {
    hide Ledger.SortBySeq, HeaderRefuses, HeaderHolds, SegmentHolds, SegmentRefuses, FirstUncommitted, FirstWrongBody, EventsCommit;
    if HeaderRefuses(host, env, e) {
      HeaderRefusalIsRight(host, env, e, e);
    } else if SegmentRefuses(host.sha, SortBySeq(env.payload.events), env.header.segment, e) {
      SegmentRefusalIsRight(host, env, e);
    }
  }

  lemma LaterRefusalIsUnique(host: Host, env: Envelope, rows: Rows, e: VerifyError, f: VerifyError)
    requires rows == SortBySeq(env.payload.events)
    requires RefusedLater(host, env, rows, e) && RefusedLater(host, env, rows, f)
    ensures e == f && !(EventsCommit(host, env) && BodiesHold(host, env))
  {
    hide Ledger.SortBySeq, CommitsToBind, CommitsToRedaction, BodyHolds;
  }

  /** So every envelope that is not accepted has exactly one refusal, the one `Verify` gives. */
  lemma RefusalIsUnique(host: Host, env: Envelope, e: VerifyError, f: VerifyError)
    requires Refutes(host, env, e) && Refutes(host, env, f)
    ensures e == f && !Accepts(host, env)
  {
    var rows, s := SortBySeq(env.payload.events), env.header.segment;
    hide Ledger.SortBySeq, HeaderRefuses, HeaderHolds, SegmentHolds, SegmentRefuses, FirstUncommitted, FirstWrongBody,
      EventsCommit, BodiesHold, RefusedLater;
    if HeaderRefuses(host, env, e) {
      HeaderRefusalIsRight(host, env, e, f);
    } else if HeaderRefuses(host, env, f) {
      HeaderRefusalIsRight(host, env, f, e);
    } else if SegmentHolds(host, env) {
      PastTheSegment(host, env, e);
      PastTheSegment(host, env, f);
      LaterRefusalIsUnique(host, env, rows, e, f);
    } else {
      SegmentRefusalIsUnique(host.sha, rows, s, e, f);
    }
  }

  // ---------------------------------------------------------------------
  // What verified segments and bodies mean for two envelopes
  // ---------------------------------------------------------------------

  /** Two envelopes whose segments hold, as those of accepted ones do, carry one history under one head. */
  lemma EnvelopesUnderOneHeadAgree(host: Host, a: Envelope, b: Envelope)
    requires SegmentHolds(host, a) && SegmentHolds(host, b)
    requires a.header.segment.headHash == b.header.segment.headHash
    requires |a.payload.events| <= |b.payload.events|
    ensures var rows, longer := SortBySeq(a.payload.events), SortBySeq(b.payload.events);
            |rows| <= |longer| && (Collision(host.sha, rows, longer) || longer[|longer| - |rows|..] == rows)
  {
    hide Ledger.SortBySeq, Ledger.Recomputes, Ledger.ValidRun, Ledger.Collision;
    SegmentLength(host, a);
    SegmentLength(host, b);
    OneHeadOneHistory(host.sha, SortBySeq(a.payload.events), SortBySeq(b.payload.events));
  }

  /**
    The chain pins the bodies too: two envelopes of one segment whose segments and bodies hold, and that ship a full
    text for one chained prompt, ship the same text, or the chains or the two texts collide.
   */
  lemma FullBodiesArePinned(host: Host, a: Envelope, b: Envelope, i: nat, j: nat)
    requires SegmentHolds(host, a) && SegmentHolds(host, b) && BodiesHold(host, a) && BodiesHold(host, b)
    requires a.header.segment == b.header.segment
    requires i < |a.payload.prompts| && j < |b.payload.prompts|
    requires ShipsBody(a.payload.prompts[i]) && ShipsBody(b.payload.prompts[j])
    requires a.payload.prompts[i].id == b.payload.prompts[j].id
    requires PromptEvent(SortBySeq(a.payload.events), a.payload.prompts[i].id).Some?
    ensures var s, t := a.payload.prompts[i].text.value, b.payload.prompts[j].text.value;
            || Collision(host.sha, SortBySeq(a.payload.events), SortBySeq(b.payload.events))
            || (s != t && host.sha(s) == host.sha(t))
            || s == t
  {
    hide Ledger.SortBySeq, Ledger.Recomputes, Ledger.ValidRun, Ledger.Collision;
    var rows, longer := SortBySeq(a.payload.events), SortBySeq(b.payload.events);
    SegmentLength(host, a);
    SegmentLength(host, b);
    OneHeadOneHistory(host.sha, rows, longer);
    assert longer[0..] == longer;
    assert BodyHolds(host, rows, a.payload.prompts[i]);
    assert BodyHolds(host, longer, b.payload.prompts[j]);
  }

  // ---------------------------------------------------------------------
  // Continuity with the local chain
  // ---------------------------------------------------------------------

  /** What `verify_against` reads of the store: the ledger, ascending, and the devices it writes as. */
  datatype Store = Store(events: Rows, devices: set<string>)

  function Beyond(rows: Rows, s: int): Rows {
    if rows == [] then []
    else (if rows[0].seqNo > s then [rows[0]] else []) + Beyond(rows[1..], s)
  }

  /** Events past a sequence number, ascending, at most `limit`; both arguments are clamped at zero. */
  function ListLedgerEventsAsc(store: Store, sinceSeq: int, limit: int): Rows {
    var found := Beyond(store.events, if sinceSeq < 0 then 0 else sinceSeq);
    if limit <= 0 then [] else if |found| <= limit then found else found[..limit]
  }

  function FindSeq(rows: Rows, s: int): Option<LedgerEventRow> {
    if rows == [] then None else if rows[0].seqNo == s then Some(rows[0]) else FindSeq(rows[1..], s)
  }

  function LocalWindow(store: Store, env: Envelope): Rows {
    ListLedgerEventsAsc(store, env.header.segment.fromSeq - 1, |env.payload.events|)
  }

  /** The row the segment must link onto, when it does not start the chain. */
  predicate LinksOntoLocal(store: Store, s: Segment) {
    s.fromSeq > 1 ==>
      var before := ListLedgerEventsAsc(store, s.fromSeq - 2, 1);
      before != [] && before[0].entryHash == s.prevHashAtFrom
  }

  predicate AgreesAt(window: Rows, r: LedgerEventRow) {
    FindSeq(window, r.seqNo).Some? ==> FindSeq(window, r.seqNo).value.entryHash == r.entryHash
  }

  ghost predicate Continuous(store: Store, env: Envelope) {
    && LinksOntoLocal(store, env.header.segment)
    && forall i | 0 <= i < |SortBySeq(env.payload.events)| ::
         AgreesAt(LocalWindow(store, env), SortBySeq(env.payload.events)[i])
  }

  /** Verify, then check continuity against the local rows when the chain is our own. */
  method VerifyAgainst(host: Host, store: Store, env: Envelope) returns (r: Result<Verified, VerifyError>)
    ensures r.Ok? <==> Accepts(host, env) && (env.header.chainId in store.devices ==> Continuous(store, env))
    ensures r.Err? && r.error != Continuity ==> Refutes(host, env, r.error)
    ensures r.Err? && r.error == Continuity ==> Accepts(host, env) && env.header.chainId in store.devices
  {
    r := Verify(host, env);
    if r.Err? || env.header.chainId !in store.devices {
      return;
    }
    hide Ledger.SortBySeq, LocalWindow, LinksOntoLocal, AgreesAt, Accepts;
    var local := LocalWindow(store, env);
    if !LinksOntoLocal(store, env.header.segment) {
      return Err(Continuity);
    }
    var remote := SortBySeq(env.payload.events);
    for i := 0 to |remote|
      invariant forall k | 0 <= k < i :: AgreesAt(local, remote[k])
    {
      if !AgreesAt(local, remote[i]) {
        return Err(Continuity);
      }
    }
  }

  /** On a contiguous chain from 1, the events past s are the chain without its first s events. */
  lemma {:induction false} BeyondIsADrop(rows: Rows, s: int)
    requires Contiguous(rows) && (rows != [] ==> s + 1 >= rows[0].seqNo)
    ensures var k := if rows == [] then 0 else s + 1 - rows[0].seqNo;
            Beyond(rows, s) == if k <= |rows| then rows[k..] else []
  {
    if rows != [] {
      var rest := rows[1..];
      assert Contiguous(rest);
      if rows[0].seqNo > s {
        if rest != [] {
          assert rest[0] == rows[1];
          BeyondIsAll(rest, s);
        }
        assert rows == [rows[0]] + rest;
      } else {
        if rest != [] {
          assert rest[0] == rows[1];
          BeyondIsADrop(rest, s);
        }
      }
    }
  }

  lemma {:induction false} BeyondIsAll(rows: Rows, s: int)
    requires Contiguous(rows) && (rows != [] ==> rows[0].seqNo > s)
    ensures Beyond(rows, s) == rows
  {
    if rows != [] {
      assert Contiguous(rows[1..]);
      if |rows| > 1 {
        assert rows[1..][0] == rows[1];
      }
      BeyondIsAll(rows[1..], s);
      assert rows == [rows[0]] + rows[1..];
    }
  }

  lemma {:induction false} FindSeqFinds(rows: Rows, k: nat)
    requires Contiguous(rows) && k < |rows|
    ensures FindSeq(rows, rows[k].seqNo) == Some(rows[k])
  {
    SeqCounts(rows, k);
    if k > 0 {
      assert Contiguous(rows[1..]);
      FindSeqFinds(rows[1..], k - 1);
    }
  }

  lemma SeqsCountFromOne(sha: Hasher, rows: Rows)
    requires ValidFromGenesis(sha, rows)
    ensures forall k | 0 <= k < |rows| :: rows[k].seqNo == k + 1
  {
    hide Ledger.Recomputes;
    forall k | 0 <= k < |rows|
      ensures rows[k].seqNo == k + 1
    {
      SeqCounts(rows, k);
    }
  }

  /** How many local events come before the window. */
  function WindowStart(env: Envelope): nat {
    if env.header.segment.fromSeq < 1 then 0 else env.header.segment.fromSeq - 1
  }

  /** The window of a valid local chain is the slice the segment's numbers would occupy. */
  lemma WindowIsASlice(sha: Hasher, store: Store, env: Envelope)
    requires ValidFromGenesis(sha, store.events)
    ensures var start, w := WindowStart(env), LocalWindow(store, env);
            forall k | 0 <= k < |w| :: start + k < |store.events| && w[k] == store.events[start + k]
    ensures var left := |store.events| - WindowStart(env);
            |LocalWindow(store, env)| == if left < 0 then 0 else if left < |env.payload.events| then left else |env.payload.events|
  {
    hide Ledger.Recomputes;
    BeyondIsADrop(store.events, WindowStart(env));
  }

  lemma FoundInWindow(sha: Hasher, store: Store, env: Envelope, k: nat)
    requires ValidFromGenesis(sha, store.events) && k < |store.events|
    requires WindowStart(env) <= k < WindowStart(env) + |env.payload.events|
    ensures FindSeq(LocalWindow(store, env), k + 1) == Some(store.events[k])
  {
    hide Ledger.Recomputes, LocalWindow;
    var w, start := LocalWindow(store, env), WindowStart(env);
    WindowIsASlice(sha, store, env);
    assert Contiguous(w);
    assert w[k - start] == store.events[start + (k - start)];
    FindSeqFinds(w, k - start);
    SeqsCountFromOne(sha, store.events);
  }

  lemma LocalLinkTarget(sha: Hasher, store: Store, s: Segment)
    requires ValidFromGenesis(sha, store.events) && s.fromSeq > 1 && LinksOntoLocal(store, s)
    ensures s.fromSeq - 1 <= |store.events| && store.events[s.fromSeq - 2].entryHash == s.prevHashAtFrom
  {
    hide Ledger.Recomputes;
    BeyondIsADrop(store.events, s.fromSeq - 2);
  }

  /**
    Nothing that diverges from a valid local chain passes: a continuous segment's event and the
    local event of the same number are the same row, or the two chains collide.
   */
  lemma DivergenceIsRefused(host: Host, store: Store, env: Envelope, i: nat, k: nat)
    requires SegmentHolds(host, env) && Continuous(store, env) && ValidFromGenesis(host.sha, store.events)
    requires i < |SortBySeq(env.payload.events)| && k < |store.events|
    requires SortBySeq(env.payload.events)[i].seqNo == store.events[k].seqNo
    ensures Collision(host.sha, store.events, SortBySeq(env.payload.events))
            || store.events[k] == SortBySeq(env.payload.events)[i]
  {
    hide Ledger.SortBySeq, Ledger.Recomputes, Ledger.EventText;
    var rows := SortBySeq(env.payload.events);
    SegmentLength(host, env);
    SeqsCountFromOne(host.sha, store.events);
    SeqCounts(rows, i);
    FoundInWindow(host.sha, store, env, k);
    assert AgreesAt(LocalWindow(store, env), rows[i]);
    SameHashSameRow(host.sha, store.events[k], rows[i]);
  }

  /** The first k local events followed by a segment are a chain from genesis, and it and the local one do not diverge. */
  ghost predicate SplicesAt(sha: Hasher, local: Rows, rows: Rows, k: nat) {
    && k <= |local|
    && ValidFromGenesis(sha, local[..k] + rows)
    && (local[..k] + rows <= local || local <= local[..k] + rows)
  }

  ghost predicate SplicesOn(host: Host, local: Rows, env: Envelope) {
    exists k: nat :: SplicesAt(host.sha, local, SortBySeq(env.payload.events), k)
  }

  /**
    A segment that holds and is continuous with our own non-empty chain splices onto it exactly when it starts at
    sequence number 1 or later, and then only after the local events before it.
   */
  lemma AcceptedSegmentSplicesIffItStartsInTheChain(host: Host, store: Store, env: Envelope)
    requires SegmentHolds(host, env) && Continuous(store, env)
    requires ValidFromGenesis(host.sha, store.events) && store.events != []
    ensures || Collision(host.sha, store.events, SortBySeq(env.payload.events))
            || (SplicesOn(host, store.events, env) <==> env.header.segment.fromSeq >= 1)
    ensures forall k: nat | SplicesAt(host.sha, store.events, SortBySeq(env.payload.events), k) ::
              env.header.segment.fromSeq == k + 1
  {
    hide Ledger.SortBySeq, Ledger.Recomputes, Ledger.Collision, Ledger.ValidFromGenesis, Continuous, SplicesAt;
    var rows, f := SortBySeq(env.payload.events), env.header.segment.fromSeq;
    if f >= 1 && !Collision(host.sha, store.events, rows) {
      SegmentSplices(host, store, env);
    }
    forall k: nat | SplicesAt(host.sha, store.events, rows, k)
      ensures f == k + 1
    {
      SpliceFixesTheStart(host.sha, store.events, rows, k);
    }
  }

  lemma SpliceFixesTheStart(sha: Hasher, local: Rows, rows: Rows, k: nat)
    requires SplicesAt(sha, local, rows, k) && rows != []
    ensures rows[0].seqNo == k + 1
  {
    hide Ledger.Recomputes;
    SeqsCountFromOne(sha, local[..k] + rows);
    assert (local[..k] + rows)[k] == rows[0];
  }

  lemma SegmentSplices(host: Host, store: Store, env: Envelope)
    requires SegmentHolds(host, env) && Continuous(store, env) && env.header.segment.fromSeq >= 1
    requires ValidFromGenesis(host.sha, store.events) && store.events != []
    requires !Collision(host.sha, store.events, SortBySeq(env.payload.events))
    ensures SplicesAt(host.sha, store.events, SortBySeq(env.payload.events), (env.header.segment.fromSeq - 1) as nat)
  {
    hide Ledger.SortBySeq, Ledger.Recomputes, Ledger.Collision, AgreesAt;
    var local, rows, f := store.events, SortBySeq(env.payload.events), env.header.segment.fromSeq;
    SeqsCountFromOne(host.sha, local);
    if f > 1 {
      LocalLinkTarget(host.sha, store, env.header.segment);
    }
    var spliced := local[..f - 1] + rows;
    forall j | 0 <= j < |spliced| && j < |local|
      ensures spliced[j] == local[j]
    {
      if j >= f - 1 {
        SeqCounts(rows, j - (f - 1));
        DivergenceIsRefused(host, store, env, j - (f - 1), j);
      }
    }
    hide Continuous, SegmentHolds;
    SpliceIsValid(host.sha, local, rows, f - 1);
    if |spliced| <= |local| {
      assert spliced == local[..|spliced|];
    } else {
      assert spliced[..|local|] == local;
    }
  }

  lemma SpliceIsValid(sha: Hasher, local: Rows, rows: Rows, k: nat)
    requires ValidFromGenesis(sha, local) && ValidRun(sha, rows) && rows != [] && k <= |local| && local != []
    requires rows[0].seqNo == k + 1 && (k > 0 ==> rows[0].prevHash == local[k - 1].entryHash)
    requires k == 0 ==> rows[0] == local[0]
    ensures ValidFromGenesis(sha, local[..k] + rows)
  {
    hide Ledger.Recomputes;
    var s := local[..k] + rows;
    if k > 0 {
      SeqCounts(local, k - 1);
    }
    forall i, j | 0 <= i && j == i + 1 && j < |s|
      ensures s[j].seqNo == s[i].seqNo + 1 && s[j].prevHash == s[i].entryHash
    {
      if i >= k {
        assert s[i] == rows[i - k] && s[j] == rows[j - k];
      } else if j < k {
        assert s[i] == local[i] && s[j] == local[j];
      }
    }
  }

  /** A segment wholly below sequence number 1 is compared with nothing, whatever the local chain holds. */
  lemma SegmentsBelowOneAreNeverCompared(host: Host, store: Store, env: Envelope)
    requires SegmentHolds(host, env) && env.header.segment.toSeq < 1
    requires ValidFromGenesis(host.sha, store.events)
    ensures Continuous(store, env)
  {
    hide Ledger.SortBySeq, Ledger.Recomputes;
    var rows := SortBySeq(env.payload.events);
    SegmentLength(host, env);
    var w := LocalWindow(store, env);
    WindowIsASlice(host.sha, store, env);
    SeqsCountFromOne(host.sha, store.events);
    forall i | 0 <= i < |rows|
      ensures AgreesAt(w, rows[i])
    {
      SeqCounts(rows, i);
      NotFound(w, rows[i].seqNo);
    }
  }

  lemma {:induction false} NotFound(rows: Rows, s: int)
    requires forall k | 0 <= k < |rows| :: rows[k].seqNo != s
    ensures FindSeq(rows, s) == None
  {
    if rows != [] {
      NotFound(rows[1..], s);
    }
  }

  // ---------------------------------------------------------------------
  // An accepted segment that belongs to no chain
  // ---------------------------------------------------------------------

  /** Whoever holds a key: what they sign verifies under it. */
  datatype Signer = Signer(key: string, sign: string -> string)

  ghost predicate CanSign(host: Host, signer: Signer) {
    host.hexDecode(signer.key).Some? && forall m :: host.verifyHex(signer.key, m, signer.sign(m))
  }

  function OffChainRow(sha: Hasher): LedgerEventRow {
    var row := LedgerEventRow(0, 0, "note", "", None, None, None, None, None, "", "", "");
    row.(entryHash := ComputeEntryHash(sha, "", CanonicalOf(row)))
  }

  /** A signed segment of one event, numbered zero, for the chain of a device of the signer's. */
  function OffChainEnvelope(host: Host, signer: Signer, deviceName: string): Envelope
    requires host.hexDecode(signer.key).Some?
  {
    var key := host.hexDecode(signer.key).value;
    var human := PrincipalCard(host.principalId(key), Human, Some(signer.key), None, None);
    var chainId := host.deviceId(key, deviceName);
    var device := PrincipalCard(chainId, Device, None, Some(human.principalId), Some(deviceName));
    var row := OffChainRow(host.sha);
    var bind := BindPayload(human, device, chainId, row.entryHash, signer.sign(BindMessage(chainId, row.entryHash)));
    var payload := Payload([row], [], [bind], []);
    var header := Header(ENVELOPE_SCHEMA, chainId, device, human, Segment(0, 0, "", row.entryHash),
                         host.sha(host.payloadJson(payload)));
    Envelope(header, signer.sign(host.headerLine(header)), payload)
  }

  /** On every host and against every valid chain there is an accepted segment that no local chain can contain. */
  lemma OffChainSegmentIsAccepted(host: Host, store: Store, signer: Signer, deviceName: string)
    requires CanSign(host, signer) && ValidFromGenesis(host.sha, store.events)
    ensures var env := OffChainEnvelope(host, signer, deviceName);
            && Accepts(host, env) && Continuous(store, env)
            && env.header.segment.fromSeq == env.header.segment.toSeq == 0
            && (forall k | 0 <= k < |store.events| :: store.events[k].seqNo != 0)
            && !SplicesOn(host, store.events, env)
  {
    var env := OffChainEnvelope(host, signer, deviceName);
    OffChainHeaderHolds(host, signer, deviceName);
    OffChainSegmentHolds(host, signer, deviceName);
    SeqsCountFromOne(host.sha, store.events);
    SegmentsBelowOneAreNeverCompared(host, store, env);
    hide Ledger.SortBySeq, HeaderHolds, SegmentHolds, Continuous, SplicesAt;
    forall k: nat | SplicesAt(host.sha, store.events, SortBySeq(env.payload.events), k)
      ensures false
    {
      SpliceFixesTheStart(host.sha, store.events, SortBySeq(env.payload.events), k);
    }
  }

  lemma OffChainHeaderHolds(host: Host, signer: Signer, deviceName: string)
    requires CanSign(host, signer)
    ensures HeaderHolds(host, OffChainEnvelope(host, signer, deviceName))
  {
  }

  lemma OffChainSegmentHolds(host: Host, signer: Signer, deviceName: string)
    requires CanSign(host, signer)
    ensures var env := OffChainEnvelope(host, signer, deviceName);
            && SegmentHolds(host, env) && EventsCommit(host, env) && BodiesHold(host, env)
            && SortBySeq(env.payload.events) == [OffChainRow(host.sha)]
  {
    hide Ledger.ComputeEntryHash;
    var row := OffChainRow(host.sha);
    assert Recomputes(host.sha, row);
    Sorting.SortsOne(Ledger.AtMost, row);
    hide OffChainRow, Ledger.SortBySeq, Ledger.Recomputes;
  }

  const ECHO := Host(
    (t: string) => t, (k: string) => Some([]), (k: Bytes) => "human", (k: Bytes, n: string) => "device",
    (h: Header) => "", (p: Payload) => "", (b: BindPayload) => "", (r: RedactionPayload) => "",
    (k: string, m: string, s: string) => s == m)

  const OUR_SIGNER := Signer("key", (m: string) => m)

  const OUR_NOTE := LedgerAppend("note", "", 0, None, None, None, None, None, "")

  const OUR_STORE := Store(AppendEvent(ECHO.sha, [], OUR_NOTE), {"device"})

  /** One such store and envelope, under a digest with no collisions: our own non-empty chain, and no row in common. */
  lemma AnOffChainSegmentPasses()
    ensures var env := OffChainEnvelope(ECHO, OUR_SIGNER, "laptop");
            && ValidFromGenesis(ECHO.sha, OUR_STORE.events) && OUR_STORE.events != []
            && env.header.chainId in OUR_STORE.devices
            && Accepts(ECHO, env) && Continuous(OUR_STORE, env) && !SplicesOn(ECHO, OUR_STORE.events, env)
            && !Collision(ECHO.sha, OUR_STORE.events, SortBySeq(env.payload.events))
  {
    hide Ledger.ComputeEntryHash, SplicesOn, Continuous, Accepts;
    AppendsKeepTheChainValid(ECHO.sha, [], [OUR_NOTE]);
    assert AppendAll(ECHO.sha, [], [OUR_NOTE]) == OUR_STORE.events;
    OffChainSegmentIsAccepted(ECHO, OUR_STORE, OUR_SIGNER, "laptop");
  }
}
