// Credential records in PostgreSQL: written as a row with two JSONB columns and
// nullable text columns, and scanned back.
module CredentialRows {
  import opened Wrappers
  import opened JsonText
  import opened JsonValue
  import opened Canonical
  import opened World
  import opened DidRegistry
  import opened Credentials

  // `types` and `credential` hold JSON text; an absent Option is SQL NULL.
  datatype Row = Row(
    id: string, issuerDid: string, subjectDid: string, types: string, credential: string, issuanceDate: string,
    expirationDate: Option<string>, createdAt: string, revokedAt: Option<string>, revocationReason: Option<string>)

  // NULLIF(s, '')
  function NullIfEmpty(s: string): Option<string> {
    if s == "" then None else Some(s)
  }

  // COALESCE(s, '')
  function OrEmpty(s: Option<string>): string {
    match s
    case Some(v) => v
    case None => ""
  }

  function TypesValue(types: seq<string>): Json {
    JArray(seq(|types|, i requires 0 <= i < |types| => JString(types[i])))
  }

  // json.Marshal of the record's fields. Of a map it sorts the keys as canonicalizeJSON does.
  ghost function ToRow(w: World, r: Record): Row {
    Row(r.id, r.issuerDid, r.subjectDid, GoText(w.nums, TypesValue(r.types)), GoText(w.nums, JObject(r.credential)),
        r.issuanceDate, NullIfEmpty(r.expirationDate), r.createdAt,
        NullIfEmpty(r.revokedAt), NullIfEmpty(r.revocationReason))
  }

  // JSONB keeps the value, not the text: it may reorder members and prints with spaces.
  ghost predicate JsonbOf(nums: Numbers, written: string, printed: string) {
    exists d: Doc ::
      WellFormed(d) && ToValue(nums, d).Some? && Decode(nums, written) == ToValue(nums, d) && printed == Write(JSONB, d)
  }

  ghost predicate StoredAs(w: World, written: Row, printed: Row) {
    JsonbOf(w.nums, written.types, printed.types)
    && JsonbOf(w.nums, written.credential, printed.credential)
    && printed == written.(types := printed.types, credential := printed.credential)
  }

  // json.Unmarshal into []string; null is "" there.
  function StringItems(items: seq<Json>): Option<seq<string>> {
    if |items| == 0 then
      Some([])
    else
      var rest :- StringItems(items[1..]);
      match items[0]
      case JString(s) => Some([s] + rest)
      case JNull => Some([""] + rest)
      case _ => None
  }

  function StringSlice(v: Json): Option<seq<string>> {
    match v
    case JNull => Some([])
    case JArray(items) => StringItems(items)
    case _ => None
  }

  // json.Unmarshal into map[string]any
  function ObjectFields(v: Json): Option<Payload> {
    match v
    case JNull => Some(map[])
    case JObject(fields) => Some(fields)
    case _ => None
  }

  // scanCredentialRecord
  function Scan(w: World, row: Row): Option<Record> {
    var typesValue :- Decode(w.nums, row.types);
    var types :- StringSlice(typesValue);
    var credentialValue :- Decode(w.nums, row.credential);
    var credential :- ObjectFields(credentialValue);
    Some(Record(row.id, row.issuerDid, row.subjectDid, types, credential, row.issuanceDate,
                OrEmpty(row.expirationDate), row.createdAt, OrEmpty(row.revokedAt), OrEmpty(row.revocationReason)))
  }

  lemma {:induction false} StringItemsOfTypes(types: seq<string>)
    ensures StringItems(TypesValue(types).items) == Some(types)
  {
    if |types| > 0 {
      StringItemsOfTypes(types[1..]);
      assert TypesValue(types).items[1..] == TypesValue(types[1..]).items;
      assert types == [types[0]] + types[1..];
    }
  }

  lemma JsonbKeepsValue(nums: Numbers, v: Json, printed: string)
    requires nums.Lawful() && JsonbOf(nums, GoText(nums, v), printed)
    ensures Decode(nums, printed) == Some(v)
  {
    ReadGoText(nums, v, "");
    var d: Doc :| WellFormed(d) && Decode(nums, GoText(nums, v)) == ToValue(nums, d) && printed == Write(JSONB, d);
    ReadAllWrite(JSONB, d);
  }

  // Storing a record and scanning it back gives the same record, so its proof
  // verifies over the same text as when it was submitted.
  lemma ScanReadsBack(w: World, r: Record, printed: Row, dids: Dids)
    requires w.Lawful() && StoredAs(w, ToRow(w, r), printed)
    ensures Scan(w, printed) == Some(r)
    ensures SignedText(w, Scan(w, printed).value.credential) == SignedText(w, r.credential)
    ensures ProofVerdict(w, dids, Scan(w, printed).value) == ProofVerdict(w, dids, r)
  {
    JsonbKeepsValue(w.nums, TypesValue(r.types), printed.types);
    JsonbKeepsValue(w.nums, JObject(r.credential), printed.credential);
    StringItemsOfTypes(r.types);
  }

  // ---- Revocation in SQL and in memory ----

  // The UPDATE keeps a time and a reason already there, and writes an empty reason as NULL.
  function RevokeRow(w: World, row: Row, reason: string, now: Instant): Row {
    row.(revokedAt := if row.revokedAt.Some? then row.revokedAt else Some(w.formatTime(now)),
         revocationReason := if row.revocationReason.Some? then row.revocationReason else NullIfEmpty(reason))
  }

  // What MemoryCredentialStore.Revoke leaves of a record.
  function RevokeRecord(w: World, r: Record, reason: string, now: Instant): Record {
    if r.revokedAt == "" then r.(revokedAt := w.formatTime(now), revocationReason := reason) else r
  }

  // The two stores revoke alike except when an earlier revocation gave no
  // reason and this one does: SQL then fills the reason in, memory does not.
  lemma RevokeAlikeIff(w: World, r: Record, reason: string, now: Instant, printed: Row)
    requires w.Lawful() && StoredAs(w, ToRow(w, r), printed)
    requires r.revokedAt == "" ==> r.revocationReason == ""
    ensures Scan(w, RevokeRow(w, printed, reason, now)) == Some(RevokeRecord(w, r, reason, now))
       <==> !(r.revokedAt != "" && r.revocationReason == "" && reason != "")
  {
    ScanReadsBack(w, r, printed, map[]);
    assert w.parseTime(w.formatTime(now)).Some? && w.formatTime(now) != "";
  }
}
