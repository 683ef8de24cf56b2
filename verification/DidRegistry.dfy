// The DID registry: the in-memory store, the chain client over it, and the
// HTTP handlers that check signatures before they change it.
module DidRegistry {
  import opened Wrappers
  import opened Base64
  import opened World
  import opened SignedTexts
  import opened JsonText

  datatype DidDocument = DidDocument(
    context: seq<string>, id: string, publicKeyBase64: string,
    created: string, updated: string, deactivated: bool)

  type Dids = map<string, DidDocument>

  datatype RegisterRequest = RegisterRequest(
    did: string, publicKeyBase64: string, signatureBase64: string, timestamp: string)

  datatype RevokeRequest = RevokeRequest(did: string, signatureBase64: string, timestamp: string)

  // `pathDid` is the DID of the URL; the body may repeat it or leave it empty.
  datatype UpdateRequest = UpdateRequest(
    pathDid: string, did: string, publicKeyBase64: string, context: seq<string>,
    signatureBase64: string, timestamp: string)

  const DEFAULT_CONTEXT := ["https://www.w3.org/ns/did/v1", "https://uddi.network/v1"]

  // ---- Specification ----

  function NewDocument(w: World, did: string, key: Bytes, now: Instant): DidDocument {
    DidDocument(DEFAULT_CONTEXT, did, EncodeStd(key), w.formatTime(now), w.formatTime(now), false)
  }

  function Updated(w: World, doc: DidDocument, key: Bytes, context: seq<string>, now: Instant): DidDocument {
    doc.(context := if |context| > 0 then context else doc.context,
         publicKeyBase64 := EncodeStd(key),
         updated := w.formatTime(now))
  }

  function Deactivated(w: World, doc: DidDocument, now: Instant): DidDocument {
    doc.(deactivated := true, updated := w.formatTime(now))
  }

  function Register(w: World, dids: Dids, req: RegisterRequest, now: Instant): (Dids, Reply) {
    if !IsValidDidGo(req.did) then
      (dids, Reply(400, "invalid DID format"))
    else if DecodeKey(req.publicKeyBase64).None? then
      (dids, Reply(400, "invalid public key"))
    else if DecodeStd(req.signatureBase64).None? then
      (dids, Reply(400, "invalid signature encoding"))
    else
      var key := DecodeKey(req.publicKeyBase64).value;
      if !w.verify(key, RegisterText(req.did, req.timestamp), DecodeStd(req.signatureBase64).value) then
        (dids, Reply(401, "signature verification failed"))
      else if req.did in dids then
        (dids, Reply(409, "DID already registered"))
      else
        (dids[req.did := NewDocument(w, req.did, key, now)], Reply(201, "REGISTERED"))
  }

  const INVALID_STORED_KEY := Reply(500, "invalid stored public key")

  // The revoke handler does not check the size of the stored key, and
  // ed25519.Verify panics on any other size; the recoverer answers 500.
  const KEY_SIZE_PANIC := Reply(500, "ed25519: bad public key length")

  function Revoke(w: World, dids: Dids, req: RevokeRequest, now: Instant): (Dids, Reply) {
    if req.did !in dids then
      (dids, Reply(404, "DID not found"))
    else
      var key := DecodeStd(dids[req.did].publicKeyBase64);
      if key.None? then
        (dids, INVALID_STORED_KEY)
      else if DecodeStd(req.signatureBase64).None? then
        (dids, Reply(400, "invalid signature encoding"))
      else if |key.value| != KEY_SIZE then
        (dids, KEY_SIZE_PANIC)
      else if !w.verify(key.value, RevokeText(req.did, req.timestamp), DecodeStd(req.signatureBase64).value) then
        (dids, Reply(401, "signature verification failed"))
      else if dids[req.did].id !in dids then
        (dids, Reply(500, "revocation failed"))
      else
        (dids[dids[req.did].id := Deactivated(w, dids[req.did], now)], Reply(200, "REVOKED"))
  }

  function BodyDid(req: UpdateRequest): string {
    if req.did == "" then req.pathDid else req.did
  }

  function Update(w: World, dids: Dids, req: UpdateRequest, now: Instant): (Dids, Reply) {
    var did := BodyDid(req);
    if req.pathDid != did then
      (dids, Reply(400, "DID path and body mismatch"))
    else if !IsValidDidGo(did) then
      (dids, Reply(400, "invalid DID format"))
    else if did !in dids then
      (dids, Reply(404, "DID not found"))
    else if dids[did].deactivated then
      (dids, Reply(409, "DID is deactivated"))
    else if DecodeKey(dids[did].publicKeyBase64).None? then
      (dids, INVALID_STORED_KEY)
    else if DecodeKey(req.publicKeyBase64).None? then
      (dids, Reply(400, "invalid public key"))
    else if DecodeStd(req.signatureBase64).None? then
      (dids, Reply(400, "invalid signature encoding"))
    else
      var message := UpdateText(did, req.publicKeyBase64, req.timestamp);
      if !w.verify(DecodeKey(dids[did].publicKeyBase64).value, message, DecodeStd(req.signatureBase64).value) then
        (dids, Reply(401, "signature verification failed"))
      else if dids[did].id !in dids then
        (dids, Reply(500, "DID update failed"))
      else
        (dids[dids[did].id := Updated(w, dids[did], DecodeKey(req.publicKeyBase64).value, req.context, now)],
         Reply(200, "UPDATED"))
  }

  // ---- What a request can do ----

  // Documents are filed under their own id and hold a decodable key.
  ghost predicate Intact(dids: Dids) {
    forall did | did in dids :: dids[did].id == did && DecodeKey(dids[did].publicKeyBase64).Some?
  }

  const REGISTERED := Reply(201, "REGISTERED")
  const REVOKED := Reply(200, "REVOKED")
  const UPDATED := Reply(200, "UPDATED")

  // A registration changes the registry only by adding a new DID whose key signed the request.
  lemma RegisterEffect(w: World, dids: Dids, req: RegisterRequest, now: Instant)
    ensures var (dids', reply) := Register(w, dids, req, now);
            if reply == REGISTERED then
              req.did !in dids && DecodeKey(req.publicKeyBase64).Some? && DecodeStd(req.signatureBase64).Some?
              && w.verify(DecodeKey(req.publicKeyBase64).value, RegisterText(req.did, req.timestamp),
                          DecodeStd(req.signatureBase64).value)
              && dids' == dids[req.did := NewDocument(w, req.did, DecodeKey(req.publicKeyBase64).value, now)]
            else
              dids' == dids && reply.status < 500
  {
  }

  // A rotation changes only an active DID whose current key signed the new key's text.
  lemma UpdateEffect(w: World, dids: Dids, req: UpdateRequest, now: Instant)
    requires Intact(dids)
    ensures var (dids', reply) := Update(w, dids, req, now);
            var did := BodyDid(req);
            if reply == UPDATED then
              did in dids && !dids[did].deactivated
              && DecodeKey(req.publicKeyBase64).Some? && DecodeStd(req.signatureBase64).Some?
              && w.verify(DecodeKey(dids[did].publicKeyBase64).value,
                          UpdateText(did, req.publicKeyBase64, req.timestamp),
                          DecodeStd(req.signatureBase64).value)
              && dids' == dids[did := Updated(w, dids[did], DecodeKey(req.publicKeyBase64).value, req.context, now)]
            else
              dids' == dids && reply.status < 500
  {
  }

  // A revocation changes only the flag and update time of a DID whose current key signed the request.
  lemma RevokeEffect(w: World, dids: Dids, req: RevokeRequest, now: Instant)
    requires Intact(dids)
    ensures var (dids', reply) := Revoke(w, dids, req, now);
            if reply == REVOKED then
              req.did in dids && DecodeStd(req.signatureBase64).Some?
              && w.verify(DecodeKey(dids[req.did].publicKeyBase64).value, RevokeText(req.did, req.timestamp),
                          DecodeStd(req.signatureBase64).value)
              && dids' == dids[req.did := Deactivated(w, dids[req.did], now)]
            else
              dids' == dids && reply.status < 500
  {
    if req.did in dids {
      assert DecodeKey(dids[req.did].publicKeyBase64).Some?;
    }
  }

  // ---- When a request is accepted, and what the stored document then says ----

  // The signature text decodes to a signature of the message under the key.
  predicate Signs(w: World, key: Bytes, message: string, signatureBase64: string) {
    DecodeStd(signatureBase64).Some? && w.verify(key, message, DecodeStd(signatureBase64).value)
  }

  // A registration needs a DID of the right form that is free, and a signature
  // under the very key it brings. The document is new, active and dated now.
  lemma RegisteredIff(w: World, dids: Dids, req: RegisterRequest, now: Instant)
    ensures var (dids', reply) := Register(w, dids, req, now);
            && (reply == REGISTERED
                <==> StartsWith(req.did, "did:uddi:z") && 40 <= SuffixBytes(req.did) <= 100
                     && DecodeKey(req.publicKeyBase64).Some? && req.did !in dids
                     && Signs(w, DecodeKey(req.publicKeyBase64).value,
                              "register:" + req.did + ":" + req.timestamp, req.signatureBase64))
            && (reply == REGISTERED ==>
                  req.did in dids' && !dids'[req.did].deactivated && dids'[req.did].id == req.did
                  && DecodeKey(dids'[req.did].publicKeyBase64) == DecodeKey(req.publicKeyBase64)
                  && dids'[req.did].context == ["https://www.w3.org/ns/did/v1", "https://uddi.network/v1"]
                  && dids'[req.did].created == dids'[req.did].updated == w.formatTime(now))
            && (reply != REGISTERED ==> dids' == dids)
            && (forall did | did in dids :: did in dids' && dids'[did] == dids[did])
  {
    if DecodeKey(req.publicKeyBase64).Some? {
      DecodeEncode(DecodeKey(req.publicKeyBase64).value);
    }
  }

  // A rotation needs an active DID and a signature, over the new key's text,
  // under the key now stored.
  lemma UpdatedIff(w: World, dids: Dids, req: UpdateRequest, now: Instant)
    requires Intact(dids)
    ensures var reply, did := Update(w, dids, req, now).1, req.pathDid;
            reply == UPDATED
            <==> (req.did == did || req.did == "")
                 && StartsWith(did, "did:uddi:z") && 40 <= SuffixBytes(did) <= 100
                 && did in dids && !dids[did].deactivated && DecodeKey(req.publicKeyBase64).Some?
                 && Signs(w, DecodeKey(dids[did].publicKeyBase64).value,
                          "update:" + did + ":" + req.publicKeyBase64 + ":" + req.timestamp, req.signatureBase64)
  {
  }

  // Then the key changes, the context too if one was given, and nothing else
  // but the update time.
  lemma UpdateChanges(w: World, dids: Dids, req: UpdateRequest, now: Instant)
    requires Intact(dids)
    ensures var (dids', reply) := Update(w, dids, req, now);
            var did := req.pathDid;
            && (reply == UPDATED ==>
                  did in dids && did in dids' && !dids'[did].deactivated && dids'[did].id == did
                  && DecodeKey(dids'[did].publicKeyBase64) == DecodeKey(req.publicKeyBase64)
                  && dids'[did].context == (if req.context == [] then dids[did].context else req.context)
                  && dids'[did].created == dids[did].created && dids'[did].updated == w.formatTime(now))
            && (reply != UPDATED ==> dids' == dids)
            && (forall other | other in dids && other != did :: other in dids' && dids'[other] == dids[other])
            && dids'.Keys == dids.Keys
  {
    UpdateEffect(w, dids, req, now);
    if DecodeKey(req.publicKeyBase64).Some? {
      DecodeEncode(DecodeKey(req.publicKeyBase64).value);
    }
  }

  // A revocation needs a stored DID, revoked already or not, and a signature
  // under its key. It sets the flag and keeps key, context and creation time.
  lemma RevokedIff(w: World, dids: Dids, req: RevokeRequest, now: Instant)
    requires Intact(dids)
    ensures var (dids', reply) := Revoke(w, dids, req, now);
            var did := req.did;
            && (reply == REVOKED
                <==> did in dids
                     && Signs(w, DecodeKey(dids[did].publicKeyBase64).value,
                              "revoke:" + did + ":" + req.timestamp, req.signatureBase64))
            && (reply == REVOKED ==>
                  did in dids' && dids'[did].deactivated && dids'[did].id == did
                  && dids'[did].publicKeyBase64 == dids[did].publicKeyBase64
                  && dids'[did].context == dids[did].context
                  && dids'[did].created == dids[did].created && dids'[did].updated == w.formatTime(now))
            && (reply != REVOKED ==> dids' == dids)
            && (forall other | other in dids && other != did :: other in dids' && dids'[other] == dids[other])
            && dids'.Keys == dids.Keys
  {
    if req.did in dids {
      assert DecodeKey(dids[req.did].publicKeyBase64).Some?;
    }
  }

  // A refusal's status says why: 404 unknown, 409 taken or revoked, 401 a
  // signature that does not verify, 400 anything malformed.
  lemma RegisterStatus(w: World, dids: Dids, req: RegisterRequest, now: Instant)
    ensures var status := Register(w, dids, req, now).1.status;
            var formed := IsValidDidGo(req.did) && DecodeKey(req.publicKeyBase64).Some?
                          && DecodeStd(req.signatureBase64).Some?;
            && (status == 400 <==> !formed)
            && (status == 401 <==> formed && !Signs(w, DecodeKey(req.publicKeyBase64).value,
                                                    RegisterText(req.did, req.timestamp), req.signatureBase64))
            && (status == 409 ==> req.did in dids) && (status == 201 ==> req.did !in dids)
            && (status == 400 || status == 401 || status == 409 || status == 201)
  {
  }

  lemma UpdateStatus(w: World, dids: Dids, req: UpdateRequest, now: Instant)
    requires Intact(dids)
    ensures var status, did := Update(w, dids, req, now).1.status, req.pathDid;
            var named := (req.did == did || req.did == "") && IsValidDidGo(did);
            var formed := DecodeKey(req.publicKeyBase64).Some? && DecodeStd(req.signatureBase64).Some?;
            && (status == 404 <==> named && did !in dids)
            && (status == 409 <==> named && did in dids && dids[did].deactivated)
            && (status == 400 <==> !named || (did in dids && !dids[did].deactivated && !formed))
            && (status == 401 ==> !Signs(w, DecodeKey(dids[did].publicKeyBase64).value,
                                         UpdateText(did, req.publicKeyBase64, req.timestamp), req.signatureBase64))
            && (status == 400 || status == 401 || status == 404 || status == 409 || status == 200)
  {
  }

  lemma RevokeStatus(w: World, dids: Dids, req: RevokeRequest, now: Instant)
    requires Intact(dids)
    ensures var status := Revoke(w, dids, req, now).1.status;
            && (status == 404 <==> req.did !in dids)
            && (status == 400 <==> req.did in dids && DecodeStd(req.signatureBase64).None?)
            && (status == 400 || status == 401 || status == 404 || status == 200)
  {
    if req.did in dids {
      assert DecodeKey(dids[req.did].publicKeyBase64).Some?;
    }
  }

  // The key text a client signed is the one the registry stores exactly when an
  // encoder wrote it: the handler decodes it and encodes it again.
  lemma RegisteredTextIsStoredIff(w: World, dids: Dids, req: RegisterRequest, now: Instant)
    requires Register(w, dids, req, now).1 == REGISTERED
    ensures var dids' := Register(w, dids, req, now).0;
            req.did in dids'
            && (dids'[req.did].publicKeyBase64 == req.publicKeyBase64 <==> IsEncoderText(req.publicKeyBase64))
  {
    RegisterEffect(w, dids, req, now);
    EncodeDecodeIff(req.publicKeyBase64);
  }

  lemma RotatedTextIsStoredIff(w: World, dids: Dids, req: UpdateRequest, now: Instant)
    requires Intact(dids) && Update(w, dids, req, now).1 == UPDATED
    ensures var dids' := Update(w, dids, req, now).0;
            BodyDid(req) in dids'
            && (dids'[BodyDid(req)].publicKeyBase64 == req.publicKeyBase64 <==> IsEncoderText(req.publicKeyBase64))
  {
    UpdateEffect(w, dids, req, now);
    EncodeDecodeIff(req.publicKeyBase64);
  }

  lemma PutKeepsIntact(dids: Dids, did: string, doc: DidDocument, key: Bytes)
    requires Intact(dids) && doc.id == did && |key| == KEY_SIZE && doc.publicKeyBase64 == EncodeStd(key)
    ensures Intact(dids[did := doc])
  {
    DecodeEncode(key);
  }

  lemma RegisterKeepsIntact(w: World, dids: Dids, req: RegisterRequest, now: Instant)
    requires Intact(dids)
    ensures Intact(Register(w, dids, req, now).0)
  {
    RegisterEffect(w, dids, req, now);
    if Register(w, dids, req, now).1 == REGISTERED {
      var key := DecodeKey(req.publicKeyBase64).value;
      PutKeepsIntact(dids, req.did, NewDocument(w, req.did, key, now), key);
    }
  }

  lemma RevokeKeepsIntact(w: World, dids: Dids, req: RevokeRequest, now: Instant)
    requires Intact(dids)
    ensures Intact(Revoke(w, dids, req, now).0)
  {
    RevokeEffect(w, dids, req, now);
  }

  lemma UpdateKeepsIntact(w: World, dids: Dids, req: UpdateRequest, now: Instant)
    requires Intact(dids)
    ensures Intact(Update(w, dids, req, now).0)
  {
    UpdateEffect(w, dids, req, now);
    if Update(w, dids, req, now).1 == UPDATED {
      var did, key := BodyDid(req), DecodeKey(req.publicKeyBase64).value;
      PutKeepsIntact(dids, did, Updated(w, dids[did], key, req.context, now), key);
    }
  }

  // ---- The store ----

  datatype RegistryStats = RegistryStats(total: int, active: int, deactivated: int, backend: string)

  class MemoryDidStore {
    const w: World
    var dids: Dids

    constructor (w: World)
      ensures this.w == w && dids == map[]
    {
      this.w := w;
      dids := map[];
    }

    method Exists(did: string) returns (exists_: bool)
      ensures exists_ <==> did in dids
    {
      exists_ := did in dids;
    }

    method Create(doc: DidDocument)
      modifies this
      ensures dids == old(dids)[doc.id := doc]
    {
      dids := dids[doc.id := doc];
    }

    method Resolve(did: string) returns (doc: Option<DidDocument>)
      ensures doc == if did in dids then Some(dids[did]) else None
    {
      doc := if did in dids then Some(dids[did]) else None;
    }

    method Update(doc: DidDocument, now: Instant) returns (found: bool)
      modifies this
      ensures found <==> doc.id in old(dids)
      ensures dids == if found then old(dids)[doc.id := doc.(updated := w.formatTime(now))] else old(dids)
    {
      if doc.id !in dids {
        return false;
      }
      dids := dids[doc.id := doc.(updated := w.formatTime(now))];
      return true;
    }

    // Every document is counted once, as active or as deactivated.
    method Stats() returns (stats: RegistryStats)
      ensures stats.total == |dids| && stats.active + stats.deactivated == stats.total
      ensures stats.deactivated == |DeactivatedAmong(dids, dids.Keys)|
      ensures stats.backend == "memory"
    {
      stats := RegistryStats(0, 0, 0, "memory");
      var unvisited := dids.Keys;
      while unvisited != {}
        invariant unvisited <= dids.Keys
        invariant stats.total == |dids.Keys - unvisited| && stats.active + stats.deactivated == stats.total
        invariant stats.deactivated == |DeactivatedAmong(dids, dids.Keys - unvisited)|
        invariant stats.backend == "memory"
        decreases |unvisited|
      {
        var did :| did in unvisited;
        CountOneMore(dids, dids.Keys - unvisited, did);
        assert dids.Keys - (unvisited - {did}) == dids.Keys - unvisited + {did};
        unvisited := unvisited - {did};
        stats := stats.(total := stats.total + 1);
        if dids[did].deactivated {
          stats := stats.(deactivated := stats.deactivated + 1);
          continue;
        }
        stats := stats.(active := stats.active + 1);
      }
      assert dids.Keys - unvisited == dids.Keys;
    }
  }

  ghost function DeactivatedAmong(dids: Dids, s: set<string>): set<string> {
    set did | did in s && did in dids && dids[did].deactivated
  }

  lemma CountOneMore(dids: Dids, s: set<string>, did: string)
    requires did in dids && did !in s
    ensures |DeactivatedAmong(dids, s + {did})|
         == |DeactivatedAmong(dids, s)| + (if dids[did].deactivated then 1 else 0)
  {
    var before := DeactivatedAmong(dids, s);
    assert DeactivatedAmong(dids, s + {did}) == if dids[did].deactivated then before + {did} else before;
  }

  // ---- The chain client ----

  class Client {
    const w: World
    const store: MemoryDidStore

    constructor (w: World, store: MemoryDidStore)
      requires store.w == w
      ensures this.w == w && this.store == store
    {
      this.w := w;
      this.store := store;
    }

    method RegisterDid(did: string, publicKey: Bytes, now: Instant)
      modifies store
      ensures store.dids == old(store.dids)[did := NewDocument(w, did, publicKey, now)]
    {
      var doc := DidDocument(
        ["https://www.w3.org/ns/did/v1", "https://uddi.network/v1"], did, EncodeStd(publicKey),
        w.formatTime(now), w.formatTime(now), false);
      store.Create(doc);
    }

    method ResolveDid(did: string) returns (doc: Option<DidDocument>)
      ensures doc == if did in store.dids then Some(store.dids[did]) else None
    {
      doc := store.Resolve(did);
    }

    method RevokeDid(did: string, now: Instant) returns (ok: bool)
      requires store.w == w
      modifies store
      ensures ok <==> did in old(store.dids) && old(store.dids)[did].id in old(store.dids)
      ensures store.dids == if ok then old(store.dids)[old(store.dids)[did].id :=
                                         Deactivated(w, old(store.dids)[did], now)]
                            else old(store.dids)
    {
      var resolved := store.Resolve(did);
      if resolved.None? {
        return false;
      }
      var doc := resolved.value;
      doc := doc.(deactivated := true);
      ok := store.Update(doc, now);
    }

    method UpdateDid(did: string, publicKey: Bytes, context: seq<string>, now: Instant) returns (ok: bool)
      requires store.w == w
      modifies store
      ensures ok <==> did in old(store.dids) && !old(store.dids)[did].deactivated
                      && old(store.dids)[did].id in old(store.dids)
      ensures store.dids == if ok then old(store.dids)[old(store.dids)[did].id :=
                                         Updated(w, old(store.dids)[did], publicKey, context, now)]
                            else old(store.dids)
    {
      var resolved := store.Resolve(did);
      if resolved.None? {
        return false;
      }
      var doc := resolved.value;
      if doc.deactivated {
        return false;
      }
      if |context| > 0 {
        doc := doc.(context := context);
      }
      doc := doc.(publicKeyBase64 := EncodeStd(publicKey));
      doc := doc.(updated := w.formatTime(now));
      ok := store.Update(doc, now);
    }
  }

  // ---- The handlers ----

  class DidHandler {
    const w: World
    const chain: Client

    constructor (w: World, chain: Client)
      requires chain.w == w && chain.store.w == w
      ensures this.w == w && this.chain == chain
    {
      this.w := w;
      this.chain := chain;
    }

    ghost predicate Wired() {
      chain.w == w && chain.store.w == w
    }

    method HandleRegister(req: RegisterRequest, now: Instant) returns (reply: Reply)
      requires Wired()
      modifies chain.store
      ensures (chain.store.dids, reply) == Register(w, old(chain.store.dids), req, now)
    {
      if !IsValidDidGo(req.did) {
        return Reply(400, "invalid DID format");
      }
      var pubKeyBytes := DecodeStd(req.publicKeyBase64);
      if pubKeyBytes.None? || |pubKeyBytes.value| != KEY_SIZE {
        return Reply(400, "invalid public key");
      }
      var challenge := "register:" + req.did + ":" + req.timestamp;
      var sigBytes := DecodeStd(req.signatureBase64);
      if sigBytes.None? {
        return Reply(400, "invalid signature encoding");
      }
      if !w.verify(pubKeyBytes.value, challenge, sigBytes.value) {
        return Reply(401, "signature verification failed");
      }
      var taken := chain.store.Exists(req.did);
      if taken {
        return Reply(409, "DID already registered");
      }
      chain.RegisterDid(req.did, pubKeyBytes.value, now);
      return Reply(201, "REGISTERED");
    }

    method HandleRevoke(req: RevokeRequest, now: Instant) returns (reply: Reply)
      requires Wired()
      modifies chain.store
      ensures (chain.store.dids, reply) == Revoke(w, old(chain.store.dids), req, now)
    {
      var didDoc := chain.ResolveDid(req.did);
      if didDoc.None? {
        return Reply(404, "DID not found");
      }
      var pubKeyBytes := DecodeStd(didDoc.value.publicKeyBase64);
      if pubKeyBytes.None? {
        return INVALID_STORED_KEY;
      }
      var challenge := "revoke:" + req.did + ":" + req.timestamp;
      var sigBytes := DecodeStd(req.signatureBase64);
      if sigBytes.None? {
        return Reply(400, "invalid signature encoding");
      }
      if |pubKeyBytes.value| != KEY_SIZE {
        return KEY_SIZE_PANIC;
      }
      if !w.verify(pubKeyBytes.value, challenge, sigBytes.value) {
        return Reply(401, "signature verification failed");
      }
      var ok := chain.RevokeDid(req.did, now);
      if !ok {
        return Reply(500, "revocation failed");
      }
      return Reply(200, "REVOKED");
    }

    method HandleUpdate(req: UpdateRequest, now: Instant) returns (reply: Reply)
      requires Wired()
      modifies chain.store
      ensures (chain.store.dids, reply) == Update(w, old(chain.store.dids), req, now)
    {
      var did := req.did;
      if did == "" {
        did := req.pathDid;
      }
      if req.pathDid != did {
        return Reply(400, "DID path and body mismatch");
      }
      if !IsValidDidGo(did) {
        return Reply(400, "invalid DID format");
      }
      var didDoc := chain.ResolveDid(did);
      if didDoc.None? {
        return Reply(404, "DID not found");
      }
      if didDoc.value.deactivated {
        return Reply(409, "DID is deactivated");
      }
      var current := DecodeStd(didDoc.value.publicKeyBase64);
      if current.None? || |current.value| != KEY_SIZE {
        return INVALID_STORED_KEY;
      }
      var next := DecodeStd(req.publicKeyBase64);
      if next.None? || |next.value| != KEY_SIZE {
        return Reply(400, "invalid public key");
      }
      var challenge := "update:" + did + ":" + req.publicKeyBase64 + ":" + req.timestamp;
      var sigBytes := DecodeStd(req.signatureBase64);
      if sigBytes.None? {
        return Reply(400, "invalid signature encoding");
      }
      if !w.verify(current.value, challenge, sigBytes.value) {
        return Reply(401, "signature verification failed");
      }
      var ok := chain.UpdateDid(did, next.value, req.context, now);
      if !ok {
        return Reply(500, "DID update failed");
      }
      return Reply(200, "UPDATED");
    }
  }
}
