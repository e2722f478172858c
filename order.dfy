/** The Order of one game round: the ordered items, the packed box, its shuffled copy for
    display, and whether the box was packed correctly. */
module Orders {
  import opened Items
  import opened Packing

  /** The exception the round generation can raise. */
  datatype Failure = IllegalArgument  // Random.nextInt(bound) with bound <= 0

  datatype Result<T> = Ok(value: T) | Err(failure: Failure)

  /** The StringBuilder loop shared by getOrderedCodes and getPackedCodes. */
  method AppendCodes(items: seq<Item>) returns (s: string)
    ensures s == JoinCodes(items)
  {
    s := "";
    for k := 0 to |items|
      invariant s == JoinCodes(items[..k])
    {
      assert items[..k + 1] == items[..k] + [items[k]];
      JoinCodesSnoc(items[..k], items[k]);
      s := s + items[k].code;
    }
    assert items[..|items|] == items;
  }

  /** Collections.shuffle: for i from the size down to 2, swap position i - 1 with the
      position the random source picks below i. The picks are supplied; an absent or
      out-of-range pick leaves that position in place. */
  method Shuffle(s: seq<Item>, picks: seq<int>) returns (t: seq<Item>)
    ensures |t| == |s|
    ensures multiset(t) == multiset(s)
  {
    t := s;
    var i := |s|;
    while i > 1
      invariant 0 <= i <= |s| == |t|
      invariant multiset(t) == multiset(s)
    {
      var step := |s| - i;
      var j := if step < |picks| && 0 <= picks[step] < i then picks[step] else i - 1;
      t := t[i - 1 := t[j]][j := t[i - 1]];
      i := i - 1;
    }
  }

  class Order {
    var ordered: seq<Item>
    var packed: seq<Item>
    var packedShuff: seq<Item>
    var correctlyPacked: bool

    /** What construction establishes: the box is no longer than the order, the display
        copy holds the same items as the box, and the flag is the joined-code comparison. */
    ghost predicate Valid()
      reads this
    {
      |packed| <= |ordered| &&
      multiset(packedShuff) == multiset(packed) &&
      (correctlyPacked <==> JoinCodes(ordered) == JoinCodes(packed))
    }

    /** One round. `catalog` is the stream of items the item catalog creates, in creation
        order; `chance` is the uniform draw, `amountWrong` the draw in [1, orderSize] taken
        on deviation, `picks` the draws of the shuffle. */
    constructor (cfg: Config, chance: real, amountWrong: int, catalog: seq<Item>, picks: seq<int>)
      requires Deviates(cfg, chance) ==> 1 <= amountWrong <= cfg.orderSize
      requires |catalog| >= ItemsDrawn(cfg, chance, amountWrong)
      ensures Valid()
      ensures cfg.orderSize >= 0 ==> |ordered| == cfg.orderSize
      ensures cfg.orderSize < 0 ==> ordered == []
      ensures ordered == catalog[..OrderLength(cfg)]
      ensures packed == ExpectedPacked(ordered, Deviates(cfg, chance), Omits(cfg, chance),
                                       if Deviates(cfg, chance) then amountWrong else 0,
                                       catalog[OrderLength(cfg)..])
    {
      ordered, packed, packedShuff, correctlyPacked := [], [], [], false;
      new;
      FillOrdered(cfg.orderSize, catalog);
      if chance <= cfg.incorrectItemChance {
        PackDeviating(chance > cfg.missingItemChance, amountWrong, catalog[|ordered|..]);
      } else {
        PackCopy();
      }
      var orderedCodes := OrderedCodes();
      var packedCodes := PackedCodes();
      correctlyPacked := orderedCodes == packedCodes;
      packedShuff := Shuffle(packedShuff, picks);
    }

    /** The constructor's fill loop: one catalog item per ordered position, `orderSize` times. */
    method FillOrdered(orderSize: int, catalog: seq<Item>)
      requires ordered == [] && packed == [] && packedShuff == []
      requires orderSize <= |catalog|
      modifies this
      ensures ordered == catalog[..if orderSize > 0 then orderSize else 0]
      ensures packed == [] && packedShuff == [] && correctlyPacked == old(correctlyPacked)
    {
      var i := 0;
      while i < orderSize
        invariant 0 <= i <= |catalog| && (i <= orderSize || i == 0)
        invariant ordered == catalog[..i]
        invariant packed == [] && packedShuff == [] && correctlyPacked == old(correctlyPacked)
      {
        ordered := ordered + [catalog[i]];
        i := i + 1;
      }
    }

    /** The deviation walk: walk the order with a 1-based counter; the first `amountWrong`
        positions get the next item of `substitutes` (when `substitute`) or nothing, the
        remaining positions keep their ordered item. Both lists receive every append. */
    method PackDeviating(substitute: bool, amountWrong: int, substitutes: seq<Item>)
      requires packed == [] && packedShuff == []
      requires 1 <= amountWrong <= |ordered|
      requires substitute ==> amountWrong <= |substitutes|
      modifies this
      ensures ordered == old(ordered) && correctlyPacked == old(correctlyPacked)
      ensures packed == ExpectedPacked(ordered, true, !substitute, amountWrong, substitutes)
      ensures packedShuff == packed
    {
      var next := 0;  // position of the next item the catalog creates
      var i := 1;
      var k := 0;
      while k < |ordered|
        invariant ordered == old(ordered) && correctlyPacked == old(correctlyPacked)
        invariant 0 <= k <= |ordered| && i == k + 1
        invariant packedShuff == packed
        invariant next == (if !substitute then 0 else if k <= amountWrong then k else amountWrong)
        invariant packed == (if !substitute then [] else substitutes[..if k <= amountWrong then k else amountWrong])
                            + (if k <= amountWrong then [] else ordered[amountWrong..k])
      {
        var oi := ordered[k];
        if i <= amountWrong {
          if substitute {
            var item := substitutes[next];
            assert substitutes[..next + 1] == substitutes[..next] + [item];
            packed := packed + [item];
            packedShuff := packedShuff + [item];
            next := next + 1;
          }
        } else {
          assert ordered[amountWrong..k + 1] == ordered[amountWrong..k] + [oi];
          packed := packed + [oi];
          packedShuff := packedShuff + [oi];
        }
        i := i + 1;
        k := k + 1;
      }
    }

    /** The copy loop: without deviation both lists receive every ordered item in turn. */
    method PackCopy()
      requires packed == [] && packedShuff == []
      modifies this
      ensures ordered == old(ordered) && correctlyPacked == old(correctlyPacked)
      ensures packed == ordered && packedShuff == packed
    {
      var k := 0;
      while k < |ordered|
        invariant ordered == old(ordered) && correctlyPacked == old(correctlyPacked)
        invariant 0 <= k <= |ordered|
        invariant packed == ordered[..k] && packedShuff == packed
      {
        var oi := ordered[k];
        assert ordered[..k + 1] == ordered[..k] + [oi];
        packed := packed + [oi];
        packedShuff := packedShuff + [oi];
        k := k + 1;
      }
    }

    /** getOrderedCodes: the codes of the ordered items joined in order. */
    method OrderedCodes() returns (s: string)
      ensures s == JoinCodes(ordered)
    {
      s := AppendCodes(ordered);
    }

    /** getPackedCodes: the codes of the packed items joined in order. */
    method PackedCodes() returns (s: string)
      ensures s == JoinCodes(packed)
    {
      s := AppendCodes(packed);
    }

    /** isCorrectlyPacked: the stored flag; on a valid order, whether the joined codes agree. */
    function IsCorrectlyPacked(): (b: bool)
      reads this
      ensures Valid() ==> (b <==> JoinCodes(ordered) == JoinCodes(packed))
    {
      correctlyPacked
    }

    /** setOrdered replaces the ordered list and nothing else; the flag is not recomputed. */
    method SetOrdered(items: seq<Item>)
      modifies this
      ensures ordered == items
      ensures packed == old(packed) && packedShuff == old(packedShuff)
      ensures correctlyPacked == old(correctlyPacked)
    {
      ordered := items;
    }

    /** setPacked replaces the packed list and nothing else; neither the flag nor the
        shuffled copy follows. */
    method SetPacked(items: seq<Item>)
      modifies this
      ensures packed == items
      ensures ordered == old(ordered) && packedShuff == old(packedShuff)
      ensures correctlyPacked == old(correctlyPacked)
    {
      packed := items;
    }
  }

  /** The constructor together with its exceptional exit: on deviation the draw of
      `amountWrong` throws when `orderSize` is not positive. */
  method NewOrder(cfg: Config, chance: real, amountWrong: int, catalog: seq<Item>, picks: seq<int>)
    returns (r: Result<Order>)
    requires Deviates(cfg, chance) && cfg.orderSize >= 1 ==> 1 <= amountWrong <= cfg.orderSize
    requires |catalog| >= ItemsDrawn(cfg, chance, amountWrong)
    ensures r.Err? <==> Deviates(cfg, chance) && cfg.orderSize <= 0
    ensures r.Err? ==> r.failure == IllegalArgument
    ensures r.Ok? ==> fresh(r.value) && r.value.Valid()
    ensures r.Ok? ==> r.value.ordered == catalog[..OrderLength(cfg)]
    ensures r.Ok? ==> r.value.packed == ExpectedPacked(r.value.ordered, Deviates(cfg, chance), Omits(cfg, chance),
                                                     if Deviates(cfg, chance) then amountWrong else 0,
                                                     catalog[OrderLength(cfg)..])
  {
    if chance <= cfg.incorrectItemChance && cfg.orderSize <= 0 {
      return Err(IllegalArgument);
    }
    var o := new Order(cfg, chance, amountWrong, catalog, picks);
    r := Ok(o);
  }

  /** A client: the setters can leave an order whose flag no longer matches its lists. */
  method SetPackedBreaksGrading()
  {
    var a := Item("a");
    var o := new Order(Config(1, 0.5, 0.25), 0.75, 1, [a], []);
    assert o.ordered == [a] && o.packed == [a];
    assert JoinCodes([a]) == "a";
    assert o.IsCorrectlyPacked();
    o.SetPacked([]);
    assert o.IsCorrectlyPacked() && JoinCodes(o.ordered) != JoinCodes(o.packed);
  }
}
