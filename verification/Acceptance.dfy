/**
  What an accepted row, append, envelope and segment are, said from the digest, the keys and the bytes alone, and the
  laws that follow for two envelopes. Nothing here refers to the verifier's own tests.
 */
module Acceptance {
  import opened CanonicalJson
  import opened CanonicalReader
  import opened Envelope
  import opened Ledger
  import opened Wrappers
  import Sorting

  // ---------------------------------------------------------------------
  // Rows and appends
  // ---------------------------------------------------------------------

  /** The row's fields, as the hashed text must hold them. */
  function DeclaredBy(row: LedgerEventRow): Fields {
    Declared(row.seqNo, row.ts, row.kind, row.author, row.promptId, row.sessionId, row.versionNumber, row.refKind,
             row.refId, row.payloadHash)
  }

  /** A row recomputes exactly when its hash is that of its predecessor's hash followed by a text holding its fields. */
  lemma RowsHashTheirFields(sha: Hasher, row: LedgerEventRow)
    ensures row.prevHash <= EventText(row)
    ensures ReadObject(EventText(row)[|row.prevHash|..]) == Some(DeclaredBy(row))
    ensures Recomputes(sha, row) <==> row.entryHash == sha(EventText(row))
  {
    hide CanonicalJson.Canonical, CanonicalReader.ReadObject, CanonicalReader.Declared;
    var e := CanonicalOf(row);
    CanonicalReads(e);
    assert EventText(row) == row.prevHash + Canonical(e);
    assert EventText(row)[|row.prevHash|..] == Canonical(e);
  }

  /** An append adds one row: the caller's fields, the next number, the head's hash, and a hash over all of them. */
  lemma AppendsWhatWasAsked(sha: Hasher, chain: Rows, a: LedgerAppend)
    requires ValidFromGenesis(sha, chain)
    ensures var longer := AppendEvent(sha, chain, a);
            && |longer| == |chain| + 1 && longer[..|chain|] == chain
            && var row := longer[|chain|];
               && row.seqNo == |chain| + 1
               && (chain != [] ==> row.prevHash == chain[|chain| - 1].entryHash)
               && (chain == [] ==> |row.prevHash| == 64 && forall i | 0 <= i < 64 :: row.prevHash[i] == '0')
               && row.kind == a.kind && row.author == a.author && row.ts == a.ts && row.promptId == a.promptId
               && row.sessionId == a.sessionId && row.versionNumber == a.versionNumber
               && row.refKind == a.refKind && row.refId == a.refId && row.payloadHash == a.payloadHash
               && row.entryHash == sha(EventText(row))
  {
    hide CanonicalJson.Preimage;
    var longer := AppendEvent(sha, chain, a);
    assert longer[..|chain|] == chain;
    if chain != [] {
      SeqCounts(chain, |chain| - 1);
    }
  }

  // ---------------------------------------------------------------------
  // Accepted envelopes
  // ---------------------------------------------------------------------

  /** The card of a human whose id derives from the key it carries. */
  ghost predicate IsTheHuman(host: Host, h: Header, hex: string, key: Bytes) {
    && h.human.kind == Human && h.human.pubkey == Some(hex) && host.hexDecode(hex) == Some(key)
    && h.human.principalId == host.principalId(key)
  }

  /** The card of the human's device, whose id derives from key and name and is the chain's. */
  ghost predicate IsTheDevice(host: Host, h: Header, key: Bytes, name: string) {
    && h.device.kind == Device && h.device.displayName == Some(name) && h.device.parentId == Some(h.human.principalId)
    && h.device.principalId == h.chainId == host.deviceId(key, name)
  }

  /** Bind i is the first for the chain, and names the chain and the human. */
  ghost predicate IsTheBind(env: Envelope, i: int) {
    var h, binds := env.header, env.payload.binds;
    && 0 <= i < |binds| && binds[i].chainId == h.chainId && (forall k | 0 <= k < i :: binds[k].chainId != h.chainId)
    && binds[i].device.principalId == h.chainId && binds[i].human.principalId == h.human.principalId
  }

  ghost predicate BoundBy(host: Host, env: Envelope, hex: string, i: int) {
    && IsTheBind(env, i)
    && var b := env.payload.binds[i];
       host.verifyHex(hex, "polis.bind/1\n" + b.chainId + "\n" + b.headHash, b.signature)
  }

  /** Header, payload and bind, all under one key. */
  ghost predicate SignedBy(host: Host, env: Envelope, hex: string, key: Bytes, name: string) {
    && env.header.schema == "polis.bundle/2"
    && IsTheHuman(host, env.header, hex, key) && IsTheDevice(host, env.header, key, name)
    && host.verifyHex(hex, host.headerLine(env.header), env.signature)
    && host.sha(host.payloadJson(env.payload)) == env.header.payloadSha256
    && exists i :: BoundBy(host, env, hex, i)
  }

  /** Row i has its number in the segment, links to the row before it, and is hashed over its own fields. */
  ghost predicate StandsAt(sha: Hasher, s: Segment, rows: Rows, i: int)
    requires 0 <= i < |rows|
  {
    && rows[i].seqNo == s.fromSeq + i
    && rows[i].prevHash == (if i == 0 then s.prevHashAtFrom else rows[i - 1].entryHash)
    && rows[i].entryHash == sha(EventText(rows[i]))
  }

  /** The events in some order are the run the header names, each hashed over its own fields. */
  ghost predicate IsTheRun(sha: Hasher, events: Rows, s: Segment, rows: Rows) {
    && multiset(rows) == multiset(events) && rows != [] && |rows| == s.toSeq - s.fromSeq + 1
    && rows[|rows| - 1].entryHash == s.headHash
    && forall i | 0 <= i < |rows| :: StandsAt(sha, s, rows, i)
  }

  ghost predicate CarriesItsPayloads(host: Host, env: Envelope) {
    forall e | e in env.payload.events ::
      && (e.kind == "principal_bind" && e.refId == Some(env.header.chainId) ==>
            exists b :: b in env.payload.binds && host.sha(host.bindJson(b)) == e.payloadHash)
      && (e.kind == "redaction" ==>
            exists r :: r in env.payload.redactions && r.eventSeq == e.seqNo
                        && host.sha(host.redactionJson(r)) == e.payloadHash)
  }

  /** Event i of a run is the first that introduces the prompt. */
  ghost predicate Introduces(rows: Rows, i: int, id: int) {
    && 0 <= i < |rows| && rows[i].kind == "prompt" && rows[i].promptId == Some(id)
    && forall k | 0 <= k < i :: !(rows[k].kind == "prompt" && rows[k].promptId == Some(id))
  }

  ghost predicate BodiesMatch(host: Host, rows: Rows, prompts: seq<PayloadPrompt>) {
    forall p | p in prompts ::
      && (p.redaction == Full ==> forall text | p.text == Some(text) :: host.sha(text) == p.bodyHash)
      && forall i | Introduces(rows, i, p.id) :: rows[i].payloadHash == p.bodyHash
  }

  ghost predicate Genuine(host: Host, env: Envelope, hex: string, key: Bytes, name: string, rows: Rows) {
    && SignedBy(host, env, hex, key, name)
    && IsTheRun(host.sha, env.payload.events, env.header.segment, rows)
    && CarriesItsPayloads(host, env)
    && BodiesMatch(host, rows, env.payload.prompts)
  }

  /** An envelope is accepted exactly when some key, name and order of its events make it genuine. */
  lemma AcceptedIffGenuine(host: Host, env: Envelope)
    ensures Accepts(host, env) <==> exists hex, key, name, rows :: Genuine(host, env, hex, key, name, rows)
  {
    hide SignedBy, IsTheRun, CarriesItsPayloads, BodiesMatch, HeaderHolds, SegmentHolds, EventsCommit, BodiesHold,
      Ledger.SortBySeq;
    if Accepts(host, env) {
      var hex, key, name := HeaderIsSigned(host, env);
      var rows := SortBySeq(env.payload.events);
      SegmentIsTheRun(host, env, rows);
      CommitmentsAreCarried(host, env);
      BodiesAgree(host, env);
      assert Genuine(host, env, hex, key, name, rows);
    }
    if hex, key, name, rows :| Genuine(host, env, hex, key, name, rows) {
      SignedHeaderHolds(host, env, hex, key, name);
      RunIsTheSegment(host, env, rows);
      CommitmentsAreCarried(host, env);
      BodiesAgree(host, env);
    }
  }

  // ---------------------------------------------------------------------
  // The header
  // ---------------------------------------------------------------------

  lemma {:induction false} FindBindFinds(binds: seq<BindPayload>, chainId: string, i: nat)
    requires i < |binds| && binds[i].chainId == chainId && forall k | 0 <= k < i :: binds[k].chainId != chainId
    ensures FindBind(binds, chainId) == Some(binds[i])
  {
    if i > 0 {
      FindBindFinds(binds[1..], chainId, i - 1);
    }
  }

  lemma {:induction false} FoundBind(binds: seq<BindPayload>, chainId: string) returns (i: nat)
    requires FindBind(binds, chainId).Some?
    ensures i < |binds| && binds[i].chainId == chainId && forall k | 0 <= k < i :: binds[k].chainId != chainId
    ensures FindBind(binds, chainId) == Some(binds[i])
  {
    if binds[0].chainId == chainId {
      i := 0;
    } else {
      var j := FoundBind(binds[1..], chainId);
      i := j + 1;
      assert forall k | 0 < k < i :: binds[k] == binds[1..][k - 1];
    }
  }

  lemma MessageOf(chainId: string, headHash: string)
    ensures BindMessage(chainId, headHash) == "polis.bind/1\n" + chainId + "\n" + headHash
  {
  }

  lemma HeaderIsSigned(host: Host, env: Envelope) returns (hex: string, key: Bytes, name: string)
    requires HeaderHolds(host, env)
    ensures SignedBy(host, env, hex, key, name)
  {
    hide BindMessage, FindBind;
    var h := env.header;
    hex, name := h.human.pubkey.value, h.device.displayName.value;
    key := host.hexDecode(hex).value;
    var i := FoundBind(env.payload.binds, h.chainId);
    MessageOf(h.chainId, env.payload.binds[i].headHash);
    assert BoundBy(host, env, hex, i);
  }

  lemma SignedHeaderHolds(host: Host, env: Envelope, hex: string, key: Bytes, name: string)
    requires SignedBy(host, env, hex, key, name)
    ensures HeaderHolds(host, env)
  {
    hide BindMessage, FindBind;
    var i :| BoundBy(host, env, hex, i);
    FindBindFinds(env.payload.binds, env.header.chainId, i);
    MessageOf(env.header.chainId, env.payload.binds[i].headHash);
  }

  /** Each refusal of the header is the first of its checks that fails, in the order the program makes them. */
  lemma HeaderRefusesTheFirstFailure(host: Host, env: Envelope)
    ensures var h := env.header;
            var human := exists hex, key :: IsTheHuman(host, h, hex, key);
            var device := exists hex, key, name :: IsTheHuman(host, h, hex, key) && IsTheDevice(host, h, key, name);
            var signed := h.human.pubkey.Some? && host.verifyHex(h.human.pubkey.value, host.headerLine(h), env.signature);
            var payload := host.sha(host.payloadJson(env.payload)) == h.payloadSha256;
            var bind := exists i :: IsTheBind(env, i);
            var bound := h.human.pubkey.Some? && exists i :: BoundBy(host, env, h.human.pubkey.value, i);
            var cards := h.schema == "polis.bundle/2" && device;
            && (HeaderRefuses(host, env, Schema) <==> h.schema != "polis.bundle/2")
            && (HeaderRefuses(host, env, IdMismatch) <==> h.schema == "polis.bundle/2" && !human)
            && (HeaderRefuses(host, env, DeviceMismatch) <==> h.schema == "polis.bundle/2" && human && !device)
            && (HeaderRefuses(host, env, BadSignature) <==> cards && !signed)
            && (HeaderRefuses(host, env, VerifyError.PayloadHash) <==> cards && signed && !payload)
            && (HeaderRefuses(host, env, NoBind) <==> cards && signed && payload && !bind)
            && (HeaderRefuses(host, env, BadBindSignature) <==> cards && signed && payload && bind && !bound)
  {
    CardsAreTheirs(host, env.header);
    BindIsTheirs(host, env);
    hide BindMessage, FindBind, IsTheHuman, IsTheDevice, IsTheBind, BoundBy, DeviceIsTheChain, BindNamesBoth, BindSigned;
  }

  lemma CardsAreTheirs(host: Host, h: Header)
    ensures HumanIsTheirKey(host, h) <==> exists hex, key :: IsTheHuman(host, h, hex, key)
    ensures HumanIsTheirKey(host, h) && DeviceIsTheChain(host, h) <==>
            exists hex, key, name :: IsTheHuman(host, h, hex, key) && IsTheDevice(host, h, key, name)
  {
    if HumanIsTheirKey(host, h) {
      var hex := h.human.pubkey.value;
      assert IsTheHuman(host, h, hex, host.hexDecode(hex).value);
      if DeviceIsTheChain(host, h) {
        assert IsTheDevice(host, h, host.hexDecode(hex).value, h.device.displayName.value);
      }
    }
  }

  lemma BindIsTheirs(host: Host, env: Envelope)
    ensures BindNamesBoth(env) <==> exists i :: IsTheBind(env, i)
    ensures HumanIsTheirKey(host, env.header) && BindNamesBoth(env) ==>
              (BindSigned(host, env) <==> exists i :: BoundBy(host, env, env.header.human.pubkey.value, i))
  {
    hide FindBind, BindMessage;
    if i :| IsTheBind(env, i) {
      FindBindFinds(env.payload.binds, env.header.chainId, i);
    }
    if BindNamesBoth(env) {
      var i := FoundBind(env.payload.binds, env.header.chainId);
      assert IsTheBind(env, i);
      MessageOf(env.header.chainId, env.payload.binds[i].headHash);
      if HumanIsTheirKey(host, env.header) {
        forall j | BoundBy(host, env, env.header.human.pubkey.value, j)
          ensures j == i
        {
          FindBindFinds(env.payload.binds, env.header.chainId, j);
        }
        assert BindSigned(host, env) ==> BoundBy(host, env, env.header.human.pubkey.value, i);
      }
    }
  }

  // ---------------------------------------------------------------------
  // The events
  // ---------------------------------------------------------------------

  lemma SegmentIsTheRun(host: Host, env: Envelope, rows: Rows)
    requires SegmentHolds(host, env) && rows == SortBySeq(env.payload.events)
    ensures IsTheRun(host.sha, env.payload.events, env.header.segment, rows)
  {
    hide Ledger.SortBySeq, Ledger.EventText, Ledger.Recomputes;
    SortBySeqIsStable(env.payload.events, 0);
    SegmentLength(host, env);
    Sorting.SameMembers(rows, env.payload.events);
    forall i | 0 <= i < |rows|
      ensures StandsAt(host.sha, env.header.segment, rows, i)
    {
      SeqCounts(rows, i);
      RowsHashTheirFields(host.sha, rows[i]);
    }
  }

  function NumberOf(row: LedgerEventRow): int {
    row.seqNo
  }

  lemma RunCounts(sha: Hasher, events: Rows, s: Segment, rows: Rows)
    requires IsTheRun(sha, events, s, rows)
    ensures Sorting.InOrder(AtMost, rows) && Sorting.DistinctBy(NumberOf, rows)
    ensures forall x, y | x in rows && y in rows && AtMost(x, y) && AtMost(y, x) :: x == y
  {
    hide Ledger.EventText;
    forall i | 0 <= i < |rows|
      ensures rows[i].seqNo == s.fromSeq + i
    {
      assert StandsAt(sha, s, rows, i);
    }
    forall x, y | x in rows && y in rows && AtMost(x, y) && AtMost(y, x)
      ensures x == y
    {
      var i :| 0 <= i < |rows| && rows[i] == x;
      var j :| 0 <= j < |rows| && rows[j] == y;
      assert i == j;
    }
  }

  /** A run is in sequence order already, so the sort finds it. */
  lemma RunIsSorted(sha: Hasher, events: Rows, s: Segment, rows: Rows)
    requires IsTheRun(sha, events, s, rows)
    ensures rows == SortBySeq(events)
  {
    var sorted := SortBySeq(events);
    RunCounts(sha, events, s, rows);
    AtMostIsAnOrder();
    Sorting.SortSorts(AtMost, events);
    assert multiset(sorted) == multiset(rows);
    hide Ledger.SortBySeq, IsTheRun, AtMost, Sorting.InOrder, Sorting.DistinctBy, Sorting.Sort;
    Sorting.SameMembers(sorted, rows);
    Sorting.DistinctIsPermuted(NumberOf, rows, sorted);
    Sorting.OneOrder(AtMost, NumberOf, sorted, rows);
  }

  lemma AtMostIsAnOrder()
    ensures Sorting.IsTotalPreorder(AtMost)
  {
  }

  lemma RunIsTheSegment(host: Host, env: Envelope, rows: Rows)
    requires IsTheRun(host.sha, env.payload.events, env.header.segment, rows)
    ensures SegmentHolds(host, env) && rows == SortBySeq(env.payload.events)
  {
    hide Ledger.SortBySeq, Ledger.EventText, Ledger.Recomputes;
    RunIsSorted(host.sha, env.payload.events, env.header.segment, rows);
    forall i | 0 <= i < |rows|
      ensures Recomputes(host.sha, rows[i])
    {
      assert StandsAt(host.sha, env.header.segment, rows, i);
      RowsHashTheirFields(host.sha, rows[i]);
    }
    assert StandsAt(host.sha, env.header.segment, rows, 0);
    assert StandsAt(host.sha, env.header.segment, rows, |rows| - 1);
    forall i, j | 0 <= i && j == i + 1 && j < |rows|
      ensures rows[j].seqNo == rows[i].seqNo + 1 && rows[j].prevHash == rows[i].entryHash
    {
      assert StandsAt(host.sha, env.header.segment, rows, i) && StandsAt(host.sha, env.header.segment, rows, j);
    }
  }

  lemma CommitmentsAreCarried(host: Host, env: Envelope)
    ensures EventsCommit(host, env) <==> CarriesItsPayloads(host, env)
  {
    hide Ledger.SortBySeq;
    var rows := SortBySeq(env.payload.events);
    SortBySeqMembers(env.payload.events);
    if EventsCommit(host, env) {
      forall e | e in env.payload.events
        ensures CommitsToBind(host, env, e) && CommitsToRedaction(host, env, e)
      {
        var i :| 0 <= i < |rows| && rows[i] == e;
      }
    }
    if CarriesItsPayloads(host, env) {
      forall i | 0 <= i < |rows|
        ensures CommitsToBind(host, env, rows[i]) && CommitsToRedaction(host, env, rows[i])
      {
        assert rows[i] in env.payload.events;
      }
    }
  }

  // ---------------------------------------------------------------------
  // The bodies
  // ---------------------------------------------------------------------

  lemma {:induction false} PromptEventIsTheFirst(rows: Rows, id: int)
    ensures PromptEvent(rows, id).Some? ==> exists i :: Introduces(rows, i, id)
    ensures forall i | Introduces(rows, i, id) :: PromptEvent(rows, id) == Some(rows[i])
  {
    if rows != [] {
      PromptEventIsTheFirst(rows[1..], id);
      if rows[0].kind == "prompt" && rows[0].promptId == Some(id) {
        assert Introduces(rows, 0, id);
      } else {
        forall i | Introduces(rows, i, id)
          ensures Introduces(rows[1..], i - 1, id)
        {
          assert forall k | 0 <= k < i - 1 :: rows[1..][k] == rows[k + 1];
        }
        if i :| Introduces(rows[1..], i, id) {
          assert forall k | 0 < k < i + 1 :: rows[k] == rows[1..][k - 1];
          assert Introduces(rows, i + 1, id);
        }
      }
    }
  }

  lemma BodiesAgree(host: Host, env: Envelope)
    ensures BodiesHold(host, env) <==> BodiesMatch(host, SortBySeq(env.payload.events), env.payload.prompts)
  {
    hide Ledger.SortBySeq, PromptEvent;
    var rows, prompts := SortBySeq(env.payload.events), env.payload.prompts;
    forall id
      ensures PromptEvent(rows, id).Some? ==> exists i :: Introduces(rows, i, id)
      ensures forall i | Introduces(rows, i, id) :: PromptEvent(rows, id) == Some(rows[i])
    {
      PromptEventIsTheFirst(rows, id);
    }
    if BodiesMatch(host, rows, prompts) {
      forall i | 0 <= i < |prompts|
        ensures BodyHolds(host, rows, prompts[i])
      {
        assert prompts[i] in prompts;
      }
    }
  }

  ghost function ShippedInFull(prompts: seq<PayloadPrompt>): set<int> {
    set i | 0 <= i < |prompts| && prompts[i].redaction == Full && prompts[i].text != None
  }

  lemma ShippedWithOneMore(prompts: seq<PayloadPrompt>, p: PayloadPrompt)
    ensures ShippedInFull(prompts + [p]) ==
            ShippedInFull(prompts) + if p.redaction == Full && p.text != None then {|prompts|} else {}
  {
  }

  /** The summary's count of full bodies is the number of prompts shipped in full with a text. */
  lemma {:induction false} FullBodiesAreCounted(prompts: seq<PayloadPrompt>)
    ensures FullBodies(prompts) == |ShippedInFull(prompts)|
  {
    if prompts != [] {
      var front, last := prompts[..|prompts| - 1], prompts[|prompts| - 1];
      assert prompts == front + [last];
      FullBodiesAreCounted(front);
      ShippedWithOneMore(front, last);
      assert |front| !in ShippedInFull(front);
      hide ShippedInFull;
    } else {
      assert ShippedInFull(prompts) == {};
    }
  }

  // ---------------------------------------------------------------------
  // Laws of accepted envelopes
  // ---------------------------------------------------------------------

  /** The public key an envelope's human carries, decoded. */
  function KeyOf(host: Host, env: Envelope): Option<Bytes> {
    if env.header.human.pubkey == None then None else host.hexDecode(env.header.human.pubkey.value)
  }

  /** An accepted envelope's key is there, is its human's, and signed the header. */
  lemma AcceptedIsSignedByItsHuman(host: Host, env: Envelope)
    requires Accepts(host, env)
    ensures KeyOf(host, env).Some? && host.principalId(KeyOf(host, env).value) == env.header.human.principalId
    ensures host.verifyHex(env.header.human.pubkey.value, host.headerLine(env.header), env.signature)
  {
    hide HeaderHolds, SegmentHolds, EventsCommit, BodiesHold;
    var hex, key, name := HeaderIsSigned(host, env);
  }

  /** No one else's key speaks for a human: accepted envelopes of one human carry one key, or two keys share an id. */
  lemma OneHumanOneKey(host: Host, a: Envelope, b: Envelope)
    requires Accepts(host, a) && Accepts(host, b) && a.header.human.principalId == b.header.human.principalId
    ensures KeyOf(host, a).Some? && KeyOf(host, b).Some?
    ensures var k, l := KeyOf(host, a).value, KeyOf(host, b).value;
            k == l || (k != l && host.principalId(k) == host.principalId(l))
  {
    AcceptedIsSignedByItsHuman(host, a);
    AcceptedIsSignedByItsHuman(host, b);
  }

  /** A chain is one device of one key: accepted envelopes of one chain agree on both, or two pairs share an id. */
  lemma OneChainOneDevice(host: Host, a: Envelope, b: Envelope)
    requires Accepts(host, a) && Accepts(host, b) && a.header.chainId == b.header.chainId
    ensures KeyOf(host, a).Some? && KeyOf(host, b).Some?
    ensures a.header.device.displayName.Some? && b.header.device.displayName.Some?
    ensures var k, l := KeyOf(host, a).value, KeyOf(host, b).value;
            var m, n := a.header.device.displayName.value, b.header.device.displayName.value;
            || (k == l && m == n && a.header.human.principalId == b.header.human.principalId)
            || ((k, m) != (l, n) && host.deviceId(k, m) == host.deviceId(l, n))
  {
    hide HeaderHolds, SegmentHolds, EventsCommit, BodiesHold;
    var hex, key, name := HeaderIsSigned(host, a);
    var hex', key', name' := HeaderIsSigned(host, b);
  }

  // ---------------------------------------------------------------------
  // Continuity
  // ---------------------------------------------------------------------

  /** The segment starts the chain or follows a local row, and shares every hash it has in common with the chain. */
  ghost predicate FitsTheChain(local: Rows, s: Segment, rows: Rows) {
    && (s.fromSeq > 1 ==> s.fromSeq - 2 < |local| && local[s.fromSeq - 2].entryHash == s.prevHashAtFrom)
    && forall i | 0 <= i < |rows| && 0 < s.fromSeq + i <= |local| :: local[s.fromSeq + i - 1].entryHash == rows[i].entryHash
  }

  /** Against a valid local chain, continuity is that fit: nothing that fits is refused. */
  lemma ContinuousIffItFits(host: Host, store: Store, env: Envelope)
    requires SegmentHolds(host, env) && ValidFromGenesis(host.sha, store.events)
    ensures Continuous(store, env) <==> FitsTheChain(store.events, env.header.segment, SortBySeq(env.payload.events))
  {
    hide Ledger.SortBySeq, Ledger.Recomputes;
    var rows, s := SortBySeq(env.payload.events), env.header.segment;
    SegmentLength(host, env);
    LinkIsTheRowBefore(host.sha, store, s);
    forall i | 0 <= i < |rows|
      ensures AgreesAt(LocalWindow(store, env), rows[i]) <==>
              (0 < s.fromSeq + i <= |store.events| ==> store.events[s.fromSeq + i - 1].entryHash == rows[i].entryHash)
    {
      SeqCounts(rows, i);
      FindsExactlyTheLocalRow(host.sha, store, env, i);
    }
    hide AgreesAt, LinksOntoLocal, LocalWindow;
  }

  lemma LinkIsTheRowBefore(sha: Hasher, store: Store, s: Segment)
    requires ValidFromGenesis(sha, store.events)
    ensures LinksOntoLocal(store, s) <==>
            (s.fromSeq > 1 ==> s.fromSeq - 2 < |store.events| && store.events[s.fromSeq - 2].entryHash == s.prevHashAtFrom)
  {
    hide Ledger.Recomputes;
    if s.fromSeq > 1 {
      BeyondIsADrop(store.events, s.fromSeq - 2);
    }
  }

  lemma FindsExactlyTheLocalRow(sha: Hasher, store: Store, env: Envelope, i: nat)
    requires ValidFromGenesis(sha, store.events) && i < |env.payload.events|
    ensures var n := env.header.segment.fromSeq + i;
            FindSeq(LocalWindow(store, env), n) == if 0 < n <= |store.events| then Some(store.events[n - 1]) else None
  {
    hide Ledger.Recomputes, LocalWindow;
    var n, w := env.header.segment.fromSeq + i, LocalWindow(store, env);
    if 0 < n <= |store.events| {
      FoundInWindow(sha, store, env, n - 1);
    } else {
      WindowIsASlice(sha, store, env);
      SeqsCountFromOne(sha, store.events);
      NotFound(w, n);
    }
  }
}
