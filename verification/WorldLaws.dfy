// The laws asked of the outside world can be met together.
module WorldLaws {
  import opened Wrappers
  import Decimal
  import opened JsonText
  import opened JsonValue
  import opened World
  import Presentations

  function SimpleWorld(): World {
    World(
      Numbers((n: Float64) => Decimal.OfNat(n), s => Decimal.ReadNat(s)),
      (key, message, signature) => true,
      sk => seq(KEY_SIZE, i => 0),
      (sk, message) => seq(SIGNATURE_SIZE, i => 0),
      key => "",
      t => Decimal.OfInt(TruncateTo(SECOND, t)),
      t => Decimal.OfInt(TruncateTo(MILLISECOND, t)),
      s => Decimal.ReadInt(s))
  }

  lemma LawsAreConsistent()
    ensures SimpleWorld().Lawful()
  {
    var w := SimpleWorld();
    forall n: Float64 ensures IsNumberLiteral(w.nums.text(n)) && w.nums.read(w.nums.text(n)) == Some(n) {
      Presentations.IntegerIsNumber(n);
      Decimal.ReadNatOfNat(n);
    }
    forall t: Instant
      ensures w.parseTime(w.formatTime(t)) == Some(TruncateTo(SECOND, t))
      ensures w.parseTime(w.isoTime(t)) == Some(TruncateTo(MILLISECOND, t))
    {
      Decimal.ReadIntOfInt(TruncateTo(SECOND, t));
      Decimal.ReadIntOfInt(TruncateTo(MILLISECOND, t));
    }
    assert w.parseTime("") == None;
  }
}
