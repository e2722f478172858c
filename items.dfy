/** Items of an order and the joined code string used to grade a packed box. */
module Items {

  /** An item on an order or in a box. Only its code is observable by the order logic;
      how the catalog picks a code for a complexity tier is not part of this model. */
  datatype Item = Item(code: string)

  /** The left-to-right concatenation of the items' codes (getOrderedCodes / getPackedCodes). */
  function JoinCodes(items: seq<Item>): string
  {
    if items == [] then "" else items[0].code + JoinCodes(items[1..])
  }

  /** Joining distributes over concatenation of item lists. */
  lemma {:induction false} JoinCodesAppend(xs: seq<Item>, ys: seq<Item>)
    ensures JoinCodes(xs + ys) == JoinCodes(xs) + JoinCodes(ys)
  {
    if xs == [] {
      assert xs + ys == ys;
    } else {
      assert (xs + ys)[1..] == xs[1..] + ys;
      JoinCodesAppend(xs[1..], ys);
    }
  }

  /** Appending one item appends its code: the step of the StringBuilder loop. */
  lemma JoinCodesSnoc(xs: seq<Item>, x: Item)
    ensures JoinCodes(xs + [x]) == JoinCodes(xs) + x.code
  {
    JoinCodesAppend(xs, [x]);
    assert JoinCodes([x]) == x.code + JoinCodes([]);
  }

  /** The join is empty exactly when every item has an empty code. */
  lemma {:induction false} JoinCodesEmptyIff(xs: seq<Item>)
    ensures JoinCodes(xs) == "" <==> forall k :: 0 <= k < |xs| ==> xs[k].code == ""
  {
    if xs != [] {
      JoinCodesEmptyIff(xs[1..]);
      assert forall k :: 1 <= k < |xs| ==> xs[k] == xs[1..][k - 1];
      if JoinCodes(xs) == "" {
        assert |xs[0].code| + |JoinCodes(xs[1..])| == 0;
      }
    }
  }

  /** Every item of `xs` has a code of exactly `w` characters. */
  ghost predicate FixedWidth(xs: seq<Item>, w: nat)
  {
    forall k :: 0 <= k < |xs| ==> |xs[k].code| == w
  }

  /** Item lists are code-wise equal: same length and the same code at every position. */
  ghost predicate SameCodes(xs: seq<Item>, ys: seq<Item>)
  {
    |xs| == |ys| && forall k :: 0 <= k < |xs| ==> xs[k].code == ys[k].code
  }

  lemma {:induction false} JoinCodesLengthFixedWidth(xs: seq<Item>, w: nat)
    requires FixedWidth(xs, w)
    ensures |JoinCodes(xs)| == w * |xs|
  {
    if xs != [] {
      assert FixedWidth(xs[1..], w) by {
        forall k | 0 <= k < |xs[1..]| ensures |xs[1..][k].code| == w {
          assert xs[1..][k] == xs[k + 1];
        }
      }
      JoinCodesLengthFixedWidth(xs[1..], w);
    }
  }

  /** With codes of one positive width, comparing joined strings is the same as comparing
      the lists code by code: the concatenation cannot realign. */
  lemma {:induction false} FixedWidthJoinIsCodewise(xs: seq<Item>, ys: seq<Item>, w: nat)
    requires w > 0 && FixedWidth(xs, w) && FixedWidth(ys, w)
    ensures JoinCodes(xs) == JoinCodes(ys) <==> SameCodes(xs, ys)
  {
    JoinCodesLengthFixedWidth(xs, w);
    JoinCodesLengthFixedWidth(ys, w);
    if xs == [] || ys == [] {
      // one join is empty; the other is empty only if its list is
    } else {
      assert FixedWidth(xs[1..], w) by {
        forall k | 0 <= k < |xs[1..]| ensures |xs[1..][k].code| == w {
          assert xs[1..][k] == xs[k + 1];
        }
      }
      assert FixedWidth(ys[1..], w) by {
        forall k | 0 <= k < |ys[1..]| ensures |ys[1..][k].code| == w {
          assert ys[1..][k] == ys[k + 1];
        }
      }
      FixedWidthJoinIsCodewise(xs[1..], ys[1..], w);
      var jx, jy := JoinCodes(xs), JoinCodes(ys);
      assert jx == xs[0].code + JoinCodes(xs[1..]);
      assert jy == ys[0].code + JoinCodes(ys[1..]);
      if jx == jy {
        assert xs[0].code == jx[..w] == jy[..w] == ys[0].code;
        assert JoinCodes(xs[1..]) == jx[w..] == jy[w..] == JoinCodes(ys[1..]);
        forall k | 0 <= k < |xs| ensures xs[k].code == ys[k].code {
          if k > 0 {
            assert xs[k] == xs[1..][k - 1] && ys[k] == ys[1..][k - 1];
          }
        }
      }
      if SameCodes(xs, ys) {
        assert SameCodes(xs[1..], ys[1..]) by {
          forall k | 0 <= k < |xs[1..]| ensures xs[1..][k].code == ys[1..][k].code {
            assert xs[1..][k] == xs[k + 1] && ys[1..][k] == ys[k + 1];
          }
        }
      }
    }
  }

  /** With codes of varying width the joined comparison is coarser than a code-wise one. */
  lemma JoinCodesAmbiguous()
    ensures JoinCodes([Item("1"), Item("23")]) == JoinCodes([Item("12"), Item("3")])
    ensures !SameCodes([Item("1"), Item("23")], [Item("12"), Item("3")])
  {
  }
}
