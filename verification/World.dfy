// What the gateway takes from outside: Ed25519, the RFC 3339 clock format and
// the number printer. Each is a function with only the laws named here.
module World {
  import opened Wrappers
  import opened Base64
  import opened JsonValue

  // Nanoseconds since the Unix epoch.
  type Instant = int

  const SECOND: int := 1_000_000_000
  const MILLISECOND: int := 1_000_000
  const KEY_SIZE := 32
  const SIGNATURE_SIZE := 64

  function TruncateTo(unit: int, t: Instant): Instant
    requires unit > 0
  {
    t - t % unit
  }

  datatype World = World(
    nums: Numbers,
    verify: (Bytes, string, Bytes) -> bool,   // Ed25519 (section 5.1.7 of RFC 8032): key, message, signature
    publicKey: Bytes -> Bytes,                // of a private key
    sign: (Bytes, string) -> Bytes,           // with a private key
    didSuffix: Bytes -> string,               // base58 of the SHA-256 of a public key
    formatTime: Instant -> string,            // Go's RFC 3339 layout, whole seconds
    isoTime: Instant -> string,               // JavaScript's toISOString, whole milliseconds
    parseTime: string -> Option<Instant>)     // section 5.6 of RFC 3339
  {
    // Honest signatures verify under a public key of the right size.
    ghost predicate HonestSignatures() {
      (forall sk :: |publicKey(sk)| == KEY_SIZE)
      && (forall sk, m :: |sign(sk, m)| == SIGNATURE_SIZE && verify(publicKey(sk), m, sign(sk, m)))
    }

    // Parsing reads back what was formatted; the empty text is no time.
    ghost predicate ClockText() {
      parseTime("") == None
      && (forall t :: parseTime(formatTime(t)) == Some(TruncateTo(SECOND, t)))
      && (forall t :: parseTime(isoTime(t)) == Some(TruncateTo(MILLISECOND, t)))
    }

    ghost predicate Lawful() {
      nums.Lawful() && HonestSignatures() && ClockText()
    }
  }

  // An HTTP answer: status code and its message or error text.
  datatype Reply = Reply(status: nat, message: string)

  // base64 text that names exactly one Ed25519 public key.
  function DecodeKey(s: string): (k: Option<Bytes>)
    ensures k.Some? ==> |k.value| == KEY_SIZE
  {
    var k :- DecodeStd(s);
    if |k| == KEY_SIZE then Some(k) else None
  }
}
