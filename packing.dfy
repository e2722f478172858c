/** What a packed box must look like, as a function of the order, the configuration and the
    random draws of one round. */
module Packing {
  import opened Items

  /** The values the order reads from its controller. The complexity tier is left to the
      catalog that supplies items. */
  datatype Config = Config(orderSize: int, incorrectItemChance: real, missingItemChance: real)

  /** The one uniform draw `chance` in [0, 1) decides whether the box deviates ... */
  predicate Deviates(cfg: Config, chance: real)
    ensures 0.0 <= chance < 1.0 && cfg.incorrectItemChance >= 1.0 ==> Deviates(cfg, chance)
    ensures 0.0 <= chance && cfg.incorrectItemChance < 0.0 ==> !Deviates(cfg, chance)
  {
    chance <= cfg.incorrectItemChance
  }

  /** ... and the same draw decides whether a deviation omits or substitutes. */
  predicate Omits(cfg: Config, chance: real)
    ensures 0.0 <= chance < 1.0 && cfg.missingItemChance >= 1.0 ==> Omits(cfg, chance)
    ensures Omits(cfg, chance) && cfg.missingItemChance <= cfg.incorrectItemChance ==> Deviates(cfg, chance)
  {
    chance <= cfg.missingItemChance
  }

  /** Number of items on the order: the fill loop runs `orderSize` times, none when negative. */
  function OrderLength(cfg: Config): nat
  {
    if cfg.orderSize > 0 then cfg.orderSize else 0
  }

  /** Number of fresh items the catalog hands out in one round: one per ordered item and
      one per substituted position. */
  function ItemsDrawn(cfg: Config, chance: real, amountWrong: int): (n: int)
    ensures n >= OrderLength(cfg)
    ensures !Deviates(cfg, chance) || Omits(cfg, chance) ==> n == OrderLength(cfg)
  {
    OrderLength(cfg) + (if Deviates(cfg, chance) && !Omits(cfg, chance) && 1 <= amountWrong <= cfg.orderSize then amountWrong else 0)
  }

  /** The packed box of a round. Without deviation it is the order itself; with deviation
      the first `amountWrong` positions are all omitted or all replaced, position by position,
      by the items of `substitutes`, and the rest of the order is kept. */
  function ExpectedPacked(ordered: seq<Item>, deviate: bool, omit: bool, amountWrong: nat,
                          substitutes: seq<Item>): (r: seq<Item>)
    requires deviate ==> amountWrong <= |ordered|
    requires deviate && !omit ==> amountWrong <= |substitutes|
    ensures |r| <= |ordered|
    ensures |r| == if deviate && omit then |ordered| - amountWrong else |ordered|
    ensures !deviate ==> forall k :: 0 <= k < |r| ==> r[k] == ordered[k]
    ensures deviate && omit ==> forall k :: 0 <= k < |r| ==> r[k] == ordered[amountWrong + k]
    ensures deviate && !omit ==> forall k :: 0 <= k < amountWrong ==> r[k] == substitutes[k]
    ensures deviate && !omit ==> forall k :: amountWrong <= k < |r| ==> r[k] == ordered[k]
  {
    if !deviate then ordered
    else if omit then ordered[amountWrong..]
    else substitutes[..amountWrong] + ordered[amountWrong..]
  }

  /** Without deviation the box is the order, so it is graded as correctly packed. */
  lemma NoDeviationIsCorrect(ordered: seq<Item>, omit: bool, amountWrong: nat, substitutes: seq<Item>)
    ensures ExpectedPacked(ordered, false, omit, amountWrong, substitutes) == ordered
    ensures JoinCodes(ExpectedPacked(ordered, false, omit, amountWrong, substitutes)) == JoinCodes(ordered)
  {
  }

  /** An omission deviation leaves the box strictly shorter than the order. */
  lemma OmissionShortens(ordered: seq<Item>, amountWrong: nat, substitutes: seq<Item>)
    requires 1 <= amountWrong <= |ordered|
    ensures |ExpectedPacked(ordered, true, true, amountWrong, substitutes)| < |ordered|
  {
  }

  /** An omission is graded as correct exactly when every omitted item had an empty code. */
  lemma OmissionCorrectIff(ordered: seq<Item>, amountWrong: nat, substitutes: seq<Item>)
    requires amountWrong <= |ordered|
    ensures var packed := ExpectedPacked(ordered, true, true, amountWrong, substitutes);
            JoinCodes(ordered) == JoinCodes(packed) <==> forall k :: 0 <= k < amountWrong ==> ordered[k].code == ""
  {
    var packed := ExpectedPacked(ordered, true, true, amountWrong, substitutes);
    assert ordered == ordered[..amountWrong] + packed;
    JoinCodesAppend(ordered[..amountWrong], packed);
    var head := JoinCodes(ordered[..amountWrong]);
    assert JoinCodes(ordered) == head + JoinCodes(packed);
    assert JoinCodes(ordered) == JoinCodes(packed) <==> head == "" by {
      if JoinCodes(ordered) == JoinCodes(packed) {
        assert |head| == 0;
      }
    }
    JoinCodesEmptyIff(ordered[..amountWrong]);
    assert forall k :: 0 <= k < amountWrong ==> ordered[..amountWrong][k] == ordered[k];
  }

  /** A substitution is graded as correct exactly when the substitutes join to the same
      string as the items they replaced; a coincidentally equal substitute is accepted. */
  lemma SubstitutionCorrectIff(ordered: seq<Item>, amountWrong: nat, substitutes: seq<Item>)
    requires amountWrong <= |ordered| && amountWrong <= |substitutes|
    ensures var packed := ExpectedPacked(ordered, true, false, amountWrong, substitutes);
            JoinCodes(ordered) == JoinCodes(packed) <==>
            JoinCodes(ordered[..amountWrong]) == JoinCodes(substitutes[..amountWrong])
  {
    var packed := ExpectedPacked(ordered, true, false, amountWrong, substitutes);
    var tail := ordered[amountWrong..];
    assert ordered == ordered[..amountWrong] + tail;
    JoinCodesAppend(ordered[..amountWrong], tail);
    JoinCodesAppend(substitutes[..amountWrong], tail);
    var a, b, t := JoinCodes(ordered[..amountWrong]), JoinCodes(substitutes[..amountWrong]), JoinCodes(tail);
    assert JoinCodes(ordered) == a + t && JoinCodes(packed) == b + t;
    if a + t == b + t {
      assert |a| == |b|;
      assert a == (a + t)[..|a|] == (b + t)[..|b|] == b;
    }
  }

  /** With codes of one positive width, a round is graded correct exactly when the box
      matches the order code by code. */
  lemma FixedWidthGradingIsCodewise(ordered: seq<Item>, deviate: bool, omit: bool, amountWrong: nat,
                                    substitutes: seq<Item>, w: nat)
    requires deviate ==> amountWrong <= |ordered|
    requires deviate && !omit ==> amountWrong <= |substitutes|
    requires w > 0 && FixedWidth(ordered, w) && FixedWidth(substitutes, w)
    ensures var packed := ExpectedPacked(ordered, deviate, omit, amountWrong, substitutes);
            JoinCodes(ordered) == JoinCodes(packed) <==> SameCodes(ordered, packed)
  {
    var packed := ExpectedPacked(ordered, deviate, omit, amountWrong, substitutes);
    assert FixedWidth(packed, w) by {
      forall k | 0 <= k < |packed| ensures |packed[k].code| == w {
        if deviate && omit {
          assert packed[k] == ordered[amountWrong + k];
        }
      }
    }
    FixedWidthJoinIsCodewise(ordered, packed, w);
  }

  /** Because one draw makes both decisions, a substitution can only happen when the
      missing-item chance is below the incorrect-item chance; otherwise every deviation
      is an omission. */
  lemma SingleDrawCoupling(cfg: Config, chance: real)
    ensures Deviates(cfg, chance) && !Omits(cfg, chance) ==>
            cfg.missingItemChance < chance <= cfg.incorrectItemChance
    ensures cfg.missingItemChance >= cfg.incorrectItemChance && Deviates(cfg, chance) ==> Omits(cfg, chance)
  {
  }

  /** A zero incorrect-item chance deviates only on the draw 0.0, which the draw in [0, 1)
      can return. */
  lemma ZeroIncorrectChance(cfg: Config, chance: real)
    requires 0.0 <= chance < 1.0 && cfg.incorrectItemChance == 0.0
    ensures Deviates(cfg, chance) <==> chance == 0.0
  {
  }

  /** One item with both chances at 1.0: every draw deviates by omission, the box is
      empty, and the round is graded correct only if the item's code is empty. */
  lemma SingleItemAlwaysOmitted(cfg: Config, chance: real, ordered: seq<Item>, amountWrong: nat,
                                substitutes: seq<Item>)
    requires cfg == Config(1, 1.0, 1.0) && 0.0 <= chance < 1.0
    requires |ordered| == OrderLength(cfg) && 1 <= amountWrong <= cfg.orderSize
    ensures Deviates(cfg, chance) && Omits(cfg, chance)
    ensures ExpectedPacked(ordered, true, true, amountWrong, substitutes) == []
    ensures JoinCodes(ordered) == JoinCodes([]) <==> ordered[0].code == ""
  {
  }
}
