# Order generation of the packing game

This project models the order logic of a small packing game. An `Order` is built once per round. It holds:

- `ordered`: the items the player was asked to pack, one catalog item per position.
- `packed`: the box actually packed. It may deviate from the order.
- `packedShuff`: a shuffled copy of `packed`, shown to the player.
- `correctlyPacked`: whether the joined codes of `ordered` and `packed` are the same string.

One uniform draw `chance` in [0, 1) makes two decisions:

- The box deviates when `chance <= incorrectItemChance`.
- A deviation then omits its first `amountWrong` positions when `chance <= missingItemChance`, and substitutes fresh items at them otherwise.

Here `amountWrong` is drawn in [1, orderSize], and the rest of the order is kept.

The model has three modules:

- `Items` (items.dfy): an item as its code, and `JoinCodes`, the codes concatenated left to right. Lemmas cover concatenation, the empty join, and when joined comparison is the same as code-by-code comparison.
- `Packing` (packing.dfy): the configuration read from the controller and the two decisions of the single draw. `ExpectedPacked` is the reference definition of the packed box. Lemmas grade each branch with the joined-code comparison.
- `Orders` (order.dfy): the `Order` class. Its constructor fills the three list fields in place with loops, as the source does. It computes the flag by running the two code-joining loops, then shuffles the display copy. The constructor's contract ties `ordered` to the catalog items, `packed` to `ExpectedPacked`, and keeps the invariant `Valid()`. `NewOrder` adds the exception that the `amountWrong` draw throws when `orderSize` is not positive.

The inputs that the source takes from randomness and from its collaborators are parameters:

- `chance`, a real number. Comparing doubles with `<=` is exact comparison of their values, so reals model the two tests faithfully. This keeps the coupling between the two decisions, which `Packing.SingleDrawCoupling` states.
- `amountWrong`, in [1, orderSize].
- `catalog`: the stream of items that `new Item(comp)` creates, in creation order. The ordered items come first, then one substitute per substituted position.
- `picks`: the index draws of `Collections.shuffle`, which swaps position i - 1 with a pick below i for i from the size down to 2.

## Model

| member | source | states |
|---|---|---|
| Orders.Order.constructor | AndroidStudioProject/app/src/main/java/com/tommyhasselman/termsandconditions/model/Order.java:28-67 | `ordered` holds exactly `orderSize` items (none when `orderSize` is negative), the first ones of the catalog stream; `packed` is `ExpectedPacked` of the order, the two decisions of the one draw, `amountWrong` and the catalog items after the order; `Valid()` holds: `packed` is no longer than `ordered`, `packedShuff` has the same multiset of items as `packed`, and the flag is the joined-code equality |
| Orders.Order.FillOrdered | AndroidStudioProject/app/src/main/java/com/tommyhasselman/termsandconditions/model/Order.java:33-35 | the fill loop appends exactly `orderSize` catalog items in order (none for a non-positive size) and leaves the box lists and the flag unchanged |
| Orders.Order.PackDeviating | AndroidStudioProject/app/src/main/java/com/tommyhasselman/termsandconditions/model/Order.java:41-56 | the 1-based walk over the order yields exactly `ExpectedPacked` for the deviation branch, and `packedShuff` equals `packed` before the shuffle because every append goes to both |
| Orders.Order.PackCopy | AndroidStudioProject/app/src/main/java/com/tommyhasselman/termsandconditions/model/Order.java:57-62 | without deviation `packed` becomes an exact positional copy of `ordered`, and `packedShuff` equals it |
| Orders.Shuffle | AndroidStudioProject/app/src/main/java/com/tommyhasselman/termsandconditions/model/Order.java:65 | the shuffled list has the same length and the same multiset of items as its input, whatever the draws |
| Orders.AppendCodes | AndroidStudioProject/app/src/main/java/com/tommyhasselman/termsandconditions/model/Order.java:74-78 | the StringBuilder loop returns the left-to-right concatenation of the item codes, `""` for no items |
| Orders.Order.OrderedCodes | AndroidStudioProject/app/src/main/java/com/tommyhasselman/termsandconditions/model/Order.java:73-79 | returns the joined codes of `ordered` |
| Orders.Order.PackedCodes | AndroidStudioProject/app/src/main/java/com/tommyhasselman/termsandconditions/model/Order.java:85-91 | returns the joined codes of `packed` |
| Orders.Order.IsCorrectlyPacked | AndroidStudioProject/app/src/main/java/com/tommyhasselman/termsandconditions/model/Order.java:130-132 | total, like the Java getter, so it can also be called after a setter; on a valid order the flag is true exactly when the joined codes of `ordered` and `packed` are equal |
| Orders.Order.SetOrdered | AndroidStudioProject/app/src/main/java/com/tommyhasselman/termsandconditions/model/Order.java:117-119 | replaces `ordered` and changes nothing else; the flag is not recomputed |
| Orders.Order.SetPacked | AndroidStudioProject/app/src/main/java/com/tommyhasselman/termsandconditions/model/Order.java:123-125 | replaces `packed` and changes nothing else; neither the flag nor `packedShuff` follows |
| Orders.NewOrder | AndroidStudioProject/app/src/main/java/com/tommyhasselman/termsandconditions/model/Order.java:38-41 | the round fails with `IllegalArgument` exactly when it deviates and `orderSize` is not positive (the bound of `nextInt`); otherwise the new order satisfies everything the constructor promises |
| Packing.Deviates | AndroidStudioProject/app/src/main/java/com/tommyhasselman/termsandconditions/model/Order.java:40 | the deviation test `chance <= incorrectItemChance`: a draw in [0, 1) always deviates when the chance is at least 1.0, and never when it is negative |
| Packing.Omits | AndroidStudioProject/app/src/main/java/com/tommyhasselman/termsandconditions/model/Order.java:46 | the omission test, the negation of `chance > missingItemChance` on the same draw: a draw in [0, 1) always omits when the chance is at least 1.0, and an omitting draw deviates whenever `missingItemChance <= incorrectItemChance` |
| Packing.ExpectedPacked | AndroidStudioProject/app/src/main/java/com/tommyhasselman/termsandconditions/model/Order.java:40-62 | the box is never longer than the order; without deviation it holds the ordered item at every position; with omission it is `amountWrong` shorter and holds the ordered items from position `amountWrong` on; with substitution it has the order's length, the substitutes at the first `amountWrong` positions and the ordered items after them |
| Packing.NoDeviationIsCorrect | AndroidStudioProject/app/src/main/java/com/tommyhasselman/termsandconditions/model/Order.java:57-64 | without deviation the box is the order and the joined codes agree, so the flag is true |
| Packing.OmissionShortens | AndroidStudioProject/app/src/main/java/com/tommyhasselman/termsandconditions/model/Order.java:41-56 | with `amountWrong` in [1, orderSize] an omission leaves the box strictly shorter than the order |
| Packing.OmissionCorrectIff | AndroidStudioProject/app/src/main/java/com/tommyhasselman/termsandconditions/model/Order.java:44-50 | an omission is graded correct if and only if every omitted item has an empty code |
| Packing.SubstitutionCorrectIff | AndroidStudioProject/app/src/main/java/com/tommyhasselman/termsandconditions/model/Order.java:44-64 | a substitution is graded correct if and only if the substitutes join to the same string as the items they replace, so a coincidentally equal substitute counts as correct |
| Packing.FixedWidthGradingIsCodewise | AndroidStudioProject/app/src/main/java/com/tommyhasselman/termsandconditions/model/Order.java:64 | when all codes have the same positive width, the joined comparison is true exactly when box and order agree code by code |
| Packing.SingleDrawCoupling | AndroidStudioProject/app/src/main/java/com/tommyhasselman/termsandconditions/model/Order.java:39-46 | because one draw makes both decisions, a substitution needs `missingItemChance < chance <= incorrectItemChance`, and when `missingItemChance >= incorrectItemChance` every deviation is an omission |
| Packing.ZeroIncorrectChance | AndroidStudioProject/app/src/main/java/com/tommyhasselman/termsandconditions/model/Order.java:39-40 | with `incorrectItemChance` 0.0 the round deviates exactly on the draw 0.0 |
| Packing.SingleItemAlwaysOmitted | AndroidStudioProject/app/src/main/java/com/tommyhasselman/termsandconditions/model/Order.java:39-64 | one item with both chances at 1.0: every draw deviates by omission, the box is empty, and the flag is true only if that item's code is empty |
| Items.JoinCodesAppend | AndroidStudioProject/app/src/main/java/com/tommyhasselman/termsandconditions/model/Order.java:73-91 | joining codes distributes over list concatenation |
| Items.JoinCodesSnoc | AndroidStudioProject/app/src/main/java/com/tommyhasselman/termsandconditions/model/Order.java:76 | appending one item appends its code to the join |
| Items.JoinCodesEmptyIff | AndroidStudioProject/app/src/main/java/com/tommyhasselman/termsandconditions/model/Order.java:73-79 | the join is empty exactly when every item's code is empty, and in particular for the empty list |
| Items.JoinCodesLengthFixedWidth | AndroidStudioProject/app/src/main/java/com/tommyhasselman/termsandconditions/model/Order.java:73-79 | with codes of width w the join has w characters per item |
| Items.FixedWidthJoinIsCodewise | AndroidStudioProject/app/src/main/java/com/tommyhasselman/termsandconditions/model/Order.java:64 | with codes of one positive width, equal joins mean equal lengths and equal codes at every position, and conversely |
| Items.JoinCodesAmbiguous | AndroidStudioProject/app/src/main/java/com/tommyhasselman/termsandconditions/model/Order.java:64 | with codes of varying width two different code lists can join to the same string, so the flag can be true for a box that differs from the order code by code |

## Left out

- Random draws: `java.util.Random` is replaced by the parameters `chance`, `amountWrong` and `picks`. The model does not capture the distribution of outcomes.
- Doubles: NaN configuration values and the granularity of `nextDouble` are not modelled. `chance` ranges over all reals, and only the lemmas that need it assume [0, 1).
- Item and its catalog: the `Item` class is not part of this model. An item is its code, and `new Item(comp)` takes the next item of the supplied catalog stream. Item identity is not modelled. Two items with the same code are equal values, so "same reference" in `packed` and `packedShuff` reads as "same value".
- Controller: it is not part of this model. Only `orderSize` and the two chances, bundled as `Config`, are used. The complexity tier goes to the catalog.
- Orders.Shuffle: its contract promises only a permutation. It does not say that every permutation is reachable or that they are equally likely.
- Orders.Order.constructor: the check before the `amountWrong` draw is the constructor's precondition. `NewOrder` holds the exceptional exit instead, and returns `Err(IllegalArgument)` rather than throwing.
- Getters `getPacked`, `getPackedShuff` and `getOrdered` only return the fields. They are not modelled, and neither is the aliasing of the mutable list they hand out.
- The `validated` field is never used.
- Orders.Order.SetOrdered / Orders.Order.SetPacked: they do not preserve `Valid()`. The client method `SetPackedBreaksGrading` builds an order whose flag still reads true after `SetPacked` although the joined codes now differ. The Java setters also store the caller's list by reference, so later changes to that list change the order. That aliasing is not modelled: the model stores a value.
- StoryTreeNodeTest.java only checks that objects from the controller are not null, so it has no logic to model.
