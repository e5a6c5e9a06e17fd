# SPEEDEX, verified

SPEEDEX is a batch exchange: every block clears all orderbooks at once at common prices.
This project models its self-contained logic in Dafny and proves it.

- **The simplex feasibility check** (`Matrix`, `LinearSystem`, `SimplexRun`, `OfferCategories`,
  `FlowProgram`, `FlowStart`, `Feasibility`, `ForwardLists`, `SignedLists`, `Sparse`, `Objective`,
  `Solver`, `EqualBounds`). A tableau kept as row lists, column lists and shared negation flags is
  pivoted in place. Its lists are linked through the words of one allocator with bump allocation
  and per-row reference counts, and they refine sequences; the project shows that it denotes the
  dense Gauss-Jordan pivot, that entries stay in {-1, 0, 1} because the row-signing form of total
  unimodularity is inductive, that the hint stack misses no improving column, and that the answer
  is right: true exactly when some flow within the bounds sells at least as much of every asset as
  it buys.
- **The packed solver** (`BitRows`, `DenseSimplex`, `TaxFreeProgram`, `TaxFree`). Coefficients in
  two-bit lanes of 64-bit words: word addition and negation act on lanes, a dense pivot is the same
  abstract pivot, the constructed constraints keep every run within the lanes, and a run that ends
  has found the largest total trade.
- **Orderbooks** (`Accounts`, `Pricing`, `OfferKeys`, `Clearing`, `Orderbook`, `Validation`,
  `SupplyDecides`, `BlockClearing`, `Payouts`, `Persistence`, `Demand`, `DemandShares`). Producers
  split by endowment, validators by the committed threshold key; both come to the same book and
  balances, and whatever commitment a validator accepts with matching statistics, the committed
  supply alone decides. Every seller is paid one determined amount, and a block that passes the
  checks on its header pays out no more of any asset than its sellers give up, and no less than the
  taxed demand but for a bounded rounding. Undo, for producers and for validators that refuse a
  block; the thunks that runs of blocks persist, the five-phase batch on disk, and the demand queries
  behind price computation, offer by offer.
- **Transactions** (`Ledger`, `Effects`, `DatabaseViews`, `Transactions`, `Producers`,
  `SequenceTrackers`). Buffered views that withdraw eagerly and commit or unwind; a failed
  transaction is a no-op; one that is carried out moves every balance as its operations say; supply
  is conserved; and whatever the interleaving of producers, a validator accepts what they committed
  in any order and ends in the same state.
- **The continuous double auction** (`Cda`). Over every run books are never crossed, each asset is
  conserved exactly, and makers and takers trade within their limits.

Six properties of the code turned out to hold only under a condition, which is proved exact.
Each has a concrete input where it fails.

- The early return for equal bounds (`simplex/solver.cc:83-87`) keeps the answer right for every
  set of other books exactly when the skipped books cancel asset by asset: `EqualBounds.SkippingExact`,
  `EqualBounds.SkippingCanBeWrong`.
- A persisted batch equals its blocks one by one exactly when it has no stale and no blocked
  offer: `Persistence.OrderbookLMDB.WriteThunks`, `Persistence.StaleBatch`, `Persistence.BlockedBatch`.
- Undoing a producer's block restores the earlier book exactly when the partially executed offer
  is not one of the block's new ones: `Orderbook.ProducerUndo`, `Orderbook.ProducerUndoCanFail`.
  When a validator refuses a block after its clearing was accepted, the rollback restores the
  earlier book exactly when the commitment is null, the block has no new offer, or the threshold
  key is that of an offer there before; when the clearing itself is refused, exactly when the
  commitment is null or the threshold key is not that of a new offer: `Orderbook.ValidatorUndo`,
  `Orderbook.RefusedUndo`, `Orderbook.RefuseBlock`, `Orderbook.ValidatorUndoCanFail`.
- The smoothing factor found keeps the lower supply bound within the amount exactly when the
  distance from the rate to the threshold price is at most half the rate and no halving of it;
  the answer for no limit, exactly when all supply up to the rate fits: `Demand.SmoothingExact`,
  `Demand.UnlimitedExact`, `Demand.SmoothingCanOvershoot`.
- A clearing that a validator accepts trades every offer within its limit exactly when the new
  offers it clears on arrival, and the threshold offer if some of it trades, are within theirs, which
  the code does not compare: `Validation.ValidateBlock`, `Validation.LimitCanBeMissed`. The producer's
  own commitment always keeps every limit: `Validation.ValidateHonestBlock`.
- A transaction that fails is a no-op, unless it reaches a cancellation whose category is out of
  range (which throws) or sells the last asset for itself (a read past the end of the orderbooks):
  `Transactions.SerialTransactionHandler.ProcessTransaction`, `Ledger.TxThrows`,
  `Ledger.CancelCanThrow`.

Where the code and its comments disagree the code is followed. The comment above the operations
(`block_processing/serial_transaction_processor.cc:482-486`) says that an operation which fails is
a no-op; creating an account that fails at its funding leaves the id reserved until the view is
unwound, so the no-op is proved of the transaction.

How the model stands for the program:

- Merkle tries and the database are finite maps ordered by key; a trie's endowment split is the
  longest key-order prefix within an amount, and its metadata traversal leaves one entry per limit
  price with the totals up to it (`Demand.IndexOk`).
- Thrown exceptions are results (`Option`, `Status`, `Outcome`, `Verdict`, `Fault`), or, where no
  input reaches them, proof obligations.
- Signature checks, and in the double auction whether a number is in the account's window, are parameters.
- Atomic operations are sequentially consistent steps. The compare-and-swap loop itself is
  `DatabaseViews.RevertableAsset.ConditionalTransferAvailable`.
- Where a contract speaks of a whole state, the specification function or predicate it names is
  beside it in the same module: `PivotTableau`, `Produced`, `Validated`, `Undo`, `Run`, `Direct`, `Execute`.

## Model

| member | source | states |
|---|---|---|
| `Matrix.PivotSignable` | simplex/simplex.h:59 | Total unimodularity in its row-signing form survives every pivot on an entry of one, by a parity argument on the pivot column; the comment calls anything else undefined. |
| `Matrix.NegateSignable` | simplex/sparse.h:223-225 | Negating a row keeps the signing property. |
| `Matrix.SignableUnit` | simplex/simplex.h:59 | A matrix with the signing property has all entries in {-1, 0, 1}. |
| `Matrix.PivotSigning` | simplex/sparse.cc:562-705 | A signing of some rows before a pivot yields one of the same rows, with or without the pivot row, after it. |
| `LinearSystem.PivotSolves` | simplex/sparse.cc:562-705 | A pivot has exactly the solutions of the rows it started from. |
| `LinearSystem.NegateSolves` | simplex/solver.cc:121 | Negating a row and its value changes no solution. |
| `LinearSystem.EdgeSolves` | simplex/simplex.cc:82-141 | Moving one nonbasic variable and the basic ones along an edge stays on the solutions, and the objective changes by its entry. |
| `SimplexRun.EntriesUnit` | simplex/simplex.h:59 | Along a run every tableau entry and every objective entry is -1, 0 or 1. |
| `SimplexRun.PivotKeeps` | simplex/simplex.cc:82-141 | A ratio-test pivot keeps the run invariant: signability, nonnegative values, a basis, and the same problem being maximised. |
| `SimplexRun.PlainKeeps` | simplex/simplex.cc:355-397 | The same without the objective row in the signing property, which is what the tax-free solver keeps. |
| `SimplexRun.PivotRowExists` | simplex/sparse.cc:709-750 | When the goal is bounded on the solutions, an improving column always has a row with entry one, so "failed to find pivot row" is not reachable. |
| `SimplexRun.BasicSolves` | simplex/solver.cc:137-144 | The basic solution is nonnegative, solves the problem and has goal value minus the objective value. |
| `SimplexRun.Optimal` | simplex/simplex.cc:26-43 | With no positive entry among the active columns no solution supported on them does better. |
| `SimplexRun.PivotReduced` | simplex/simplex.cc:355-397 | Every pivot keeps each objective entry equal to the goal of its column less what the basis carries of it, whatever the values. |
| `SimplexRun.ObjectiveWithin` | simplex/objective_row.h:77-85 | With goals of zero and one, no objective entry is larger than one more than the number of rows. |
| `OfferCategories.IndexInverts` | orderbook/utils.h:52-73 | Valid categories map into the range of orderbook indices and back to themselves. |
| `OfferCategories.CategoryInverts` | orderbook/utils.h:75-93 | Every index in range is the index of the valid category it maps to. |
| `OfferCategories.IndexInjective` | orderbook/utils.h:52-73 | Two valid categories have the same index exactly when they are the same. |
| `OfferCategories.IndexOrdered` | orderbook/utils.h:52-73 | Orderbooks are numbered by the asset they sell, and then by the one they buy. |
| `OfferCategories.DiagonalCollides` | orderbook/utils.h:52-73 | Without validation, selling an asset for itself gets the index of another book. |
| `OfferCategories.DiagonalSells` | orderbook/utils.h:52-73 | The book so addressed sells the same asset, whenever the index is in range. |
| `FlowProgram.AssetRowDot` | simplex/solver.cc:22-56 | A row of an asset read at a point is what the asset buys, less what it sells, plus its surplus, less its penalty. |
| `FlowProgram.AssetValueMeaning` | simplex/solver.cc:105-109 | The value of an asset row is what the lower bounds sell of it less what they buy. |
| `FlowProgram.FlowToPoint` | simplex/solver.cc:77-110 | Every flow within the bounds that sells at least what it buys is a nonnegative solution without penalty, zero on inactive columns. |
| `FlowProgram.PointToFlow` | simplex/solver.cc:77-110 | Every such solution is a flow within the bounds that sells at least what it buys. |
| `FlowStart.StartSignable` | simplex/solver.cc:22-56 | The constructed tableau, with its objective row, has the signing property for every number of assets and every set of books. |
| `FlowStart.NormalizeIsPivot` | simplex/solver.cc:112-135 | Normalising a short asset row is negating it and pivoting on its penalty column. |
| `FlowStart.NormalizedInvariant` | simplex/solver.cc:112-135 | After normalisation the run invariant holds. |
| `Feasibility.PositiveRefutes` | simplex/solver.cc:137-144 | A finished run with a nonzero objective value leaves no feasible flow, not even a fractional one. |
| `Feasibility.ZeroExhibits` | simplex/solver.cc:137-144 | A finished run with objective value zero exhibits a feasible flow in whole units. |
| `Feasibility.FinishedDecides` | simplex/solver.cc:137-144 | A finished run has value zero exactly when a flow exists, and then a whole one does. |
| `SignedLists.TryErase` | simplex/sparse.cc:317-333 | On the allocator's lists: walking a sorted list forward from an iterator erases the value exactly when it is there, leaves the iterator usable for larger values, and touches no other list. |
| `SignedLists.InsertAt` | simplex/sparse.cc:305-315 | Inserting at a monotone iterator keeps the list sorted, adds just the value and touches no other list. |
| `SignedLists.GuardedInsertPos` | simplex/sparse.h:256-265 | Adding one to an entry edits row and column lists alike: a negative entry goes from both, otherwise a positive one enters both; the desync throw is not reachable. |
| `SignedLists.GuardedInsertNeg` | simplex/sparse.h:266-275 | The same for adding minus one. |
| `Sparse.SparseTableau.CollectTouched` | simplex/sparse.cc:608-664 | The merge of the two column lists lists every other row of the column and flips flags so that each has -1 there. |
| `Sparse.SparseTableau.constructor` | simplex/sparse.h:306-315 | An empty tableau denotes the empty matrix. |
| `Sparse.SparseTableau.AddRow` | simplex/sparse.h:317-319 | Adding a row appends a zero row of value zero. |
| `Sparse.SparseTableau.SetEntry` | simplex/simplex.cc:143-149 | Setting an empty entry changes that entry alone, in rows and columns. |
| `Sparse.SparseTableau.NegateRow` | simplex/sparse.h:223-225 | Flipping one shared flag negates a row of the denoted matrix and its value. |
| `Sparse.SparseTableau.LeastRow` | simplex/sparse.cc:709-750 | One scan of a column list for a row of least value with the wanted sign, starting from one already found. |
| `Sparse.SparseTableau.GetPivotRow` | simplex/sparse.cc:709-750 | The row found has entry one and the least value among such rows; none is found exactly when there is no such row. |
| `Sparse.SparseTableau.AddToEntry` | simplex/sparse.h:256-275 | Adding one or minus one to an entry changes that entry alone, in the lists of its row and of its column, and leaves every iterator of another list in place. |
| `Sparse.SparseTableau.AddToColumn` | simplex/sparse.cc:688-701 | One column step adds the coefficient to every touched row at that column only, keeping both copies in step. |
| `Sparse.SparseTableau.AddPivotRow` | simplex/sparse.cc:669-702 | Walking the pivot row adds it to every touched row. |
| `Sparse.SparseTableau.DoPivot` | simplex/sparse.cc:562-705 | The pivot, carried out in place on the linked lists of the allocator, denotes exactly the dense Gauss-Jordan pivot of matrix and values; rows, columns and flags stay in step, the lists linked, sorted, disjoint and apart in memory; no desync throw is reachable. |
| `Sparse.PivotEntry` | simplex/sparse.cc:615-705 | Entry by entry, adding the pivot row to the flipped touched rows and flipping back is the Gauss-Jordan step. |
| `Sparse.PivotDenoted` | simplex/sparse.cc:562-705 | The matrix denoted after the column is reset is the pivot of the one denoted before. |
| `Sparse.PivotValued` | simplex/sparse.cc:677-683 | The values denoted after the pivot are the pivoted values. |
| `Objective.ObjectiveRow.SetIdx` | simplex/objective_row.h:95-100 | Setting an entry pushes a hint when it is positive. |
| `Objective.ObjectiveRow.SubtractSparse` | simplex/objective_row.h:28-54 | Eliminating with a sparse row is the dense row operation, and every entry that turns positive is on the hint stack. |
| `Objective.ObjectiveRow.Subtract` | simplex/objective_row.h:77-85 | Eliminating with a packed row is the dense row operation. |
| `Objective.ObjectiveRow.GetNextPos` | simplex/objective_row.h:102-121 | The popped column is positive, and no other positive hint is lost. |
| `Solver.SimplexLPSolver.constructor` | simplex/solver.h:38-50 | The constructed solver is that of the empty set of books: rows, values, basis, no active column. |
| `Solver.SimplexLPSolver.AddAssetConstraint` | simplex/solver.cc:22-56 | Each asset gets its balance row with surplus and penalty columns. |
| `Solver.SimplexLPSolver.AdjustAssetConstraint` | simplex/solver.cc:58-69 | Changing an asset value picks the surplus or the penalty as its basic variable by sign. |
| `Solver.SimplexLPSolver.AddOrderbookConstraint` | simplex/solver.cc:77-110 | Books with lower < upper extend the program being built; equal bounds leave no trace; reversed bounds are an error. |
| `Solver.SimplexLPSolver.GetNextPivotColumn` | simplex/simplex.cc:26-43 | The hint stack always holds every active positive column, so an empty one means the run is over. |
| `Solver.SimplexLPSolver.DoPivot` | simplex/simplex.cc:82-141 | One pivot keeps the run invariant and the hint cover. When it answers true it has made one improving pivot: on an open column with a positive objective entry, at a ratio-test row. When it answers false nothing has changed and the run is at an optimum. |
| `Solver.SimplexLPSolver.NormalizeAssetConstraints` | simplex/solver.cc:112-135 | After normalisation the solver is in a running state. |
| `Solver.SimplexLPSolver.RunSimplex` | simplex/simplex.cc:414-417 | The pivot loop keeps the run invariant; it ends at an optimum, or gives up after exactly as many improving pivots as it was allowed. |
| `Solver.SimplexLPSolver.CheckFeasibility` | simplex/solver.cc:137-144 | Over the tableau on allocator-backed lists: whenever it returns, it returns true exactly when the accepted bounds admit a flow, real or whole; it gives up only after a chain of exactly the allowed number of improving pivots from the normalised start. |
| `EqualBounds.CancellingIsHarmless` | simplex/solver.cc:83-87 | Books with equal bounds that cancel asset by asset may be dropped without changing the answer. |
| `EqualBounds.ForcedAlone` | simplex/solver.cc:83-87 | Books with equal bounds alone admit a flow exactly when they cancel asset by asset. |
| `EqualBounds.SkippingExact` | simplex/solver.cc:83-87 | Dropping books with equal bounds is right for every set of other books if and only if they cancel asset by asset. |
| `EqualBounds.SkippingCanBeWrong` | simplex/solver.cc:83-87 | A concrete book for which the early return changes the answer. |
| `BitRows.NormalizeLane` | simplex/bitcompressed_row.cc:7-12 | The mask arithmetic clears exactly the lanes that hold both bits. |
| `BitRows.AddLanes` | simplex/bitcompressed_row.cc:14-18 | Adding words adds every two-bit lane without a carry, if and only if every lane sum is a coefficient. |
| `BitRows.NegateLanes` | simplex/bitcompressed_row.cc:42-49 | Flipping a word and normalising negates every lane. |
| `BitRows.SetLane` | simplex/bitcompressed_row.cc:60-87 | Setting one bit of a lane writes that coefficient and no other, exactly when the opposite one is not there. |
| `BitRows.BitcompressedRow.constructor` | simplex/bitcompressed_row.h:21-28 | A new row has enough words for its columns and all coefficients zero. |
| `BitRows.BitcompressedRow.AddRow` | simplex/bitcompressed_row.cc:20-30 | Adding a packed row is adding coefficients and values. |
| `BitRows.BitcompressedRow.Negate` | simplex/bitcompressed_row.cc:41-49 | Negating a packed row negates coefficients and value. |
| `BitRows.BitcompressedRow.SetSign` | simplex/bitcompressed_row.cc:60-87 | set_pos and set_neg write one coefficient and no other, and leave a row exactly when the opposite coefficient is not there. |
| `DenseSimplex.Eliminate` | simplex/simplex.cc:378-391 | Adding the pivot row, between two negations when the coefficient is positive, eliminates the coefficient. |
| `DenseSimplex.TUSimplex.GetNextPivotColumn` | simplex/simplex.cc:323-331 | The column is active with a positive entry; none is returned only when there is none. |
| `DenseSimplex.TUSimplex.GetNextPivotRow` | simplex/simplex.cc:332-353 | The row found passes the ratio test; the search throws only when no row has entry one. |
| `DenseSimplex.TUSimplex.EliminateAll` | simplex/simplex.cc:376-392 | The loop over rows computes the abstract pivot. |
| `DenseSimplex.TUSimplex.DoPivot` | simplex/simplex.cc:355-397 | A dense pivot is the same abstract pivot as the sparse one, and keeps the signing property. |
| `TaxFreeProgram.TrimSignable` | simplex/simplex.h:58-59 | Dropping columns keeps the signing property. |
| `TaxFreeProgram.TaxFreeSignable` | simplex/simplex.cc:166-210 | The constraints of the tax-free solver have the signing property for every number of assets and every set of orderbooks. |
| `TaxFreeProgram.StartPlain` | simplex/simplex.cc:166-210 | The constructed tableau starts a run of the problem of the largest total trade, when no capacity is negative. |
| `TaxFreeProgram.SolutionIsFlow` | simplex/simplex.cc:166-210 | Every nonnegative solution on the columns of the given orderbooks is a flow within the capacities that sells at least what it buys, and its goal value is the total trade. |
| `TaxFreeProgram.FlowIsSolution` | simplex/simplex.cc:166-210 | Every such flow is part of such a solution. |
| `TaxFreeProgram.TradeBounded` | simplex/simplex.cc:332-353 | The total trade is bounded on the solutions, so a pivot row is always found. |
| `TaxFreeProgram.FinishedMaximal` | simplex/simplex.cc:409-412 | A run that ends has a flow in whole units whose total trade no flow, whole or real, exceeds. |
| `TaxFree.TaxFreeSimplex.constructor` | simplex/simplex.h:137-147 | The constructed solver holds the balance rows of all assets. |
| `TaxFree.TaxFreeSimplex.AddAssetConstraint` | simplex/simplex.cc:166-189 | Each asset gets its balance row with a surplus column. |
| `TaxFree.TaxFreeSimplex.AddOrderbookConstraint` | simplex/simplex.cc:191-210 | An orderbook adds its capacity row and value and its goal, given before or not. |
| `TaxFree.TaxFreeSimplex.RunSimplex` | simplex/simplex.cc:409-412 | Over every run of packed pivots all coefficients stay in {-1, 0, 1} and all objective entries within the number of rows and one; with no negative capacity the throw for a missing pivot row is not reachable, and a run that ends by itself has found the largest total trade of any flow; one that gives up has made exactly the allowed number of improving pivots. |
| `ForwardLists.WordParts` | simplex/allocator.h:441-449 | A word packs an address and a value; setting the value keeps the address and copying an address keeps the value. |
| `ForwardLists.Allocator.Bump` | simplex/allocator.h:36-42 | The slot handed out by a row is not in use, and every other row is untouched. |
| `ForwardLists.Allocator.Allocate` | simplex/allocator.h:371-395 | Two live allocations never share an address despite row reuse, and no live word changes. |
| `ForwardLists.Allocator.Free` | simplex/allocator.h:397-434 | Freeing takes one address out of use and changes no word; a full row is reused only when nothing in it is live. |
| `ForwardLists.InsertLinks` | simplex/allocator.h:784-808 | Linking a new node after a position inserts its value there. |
| `ForwardLists.EraseLinks` | simplex/allocator.h:810-824 | Unlinking the node after a position removes its value. |
| `ForwardLists.OthersKept` | simplex/allocator.h:784-824 | A change to one list leaves every other list linked, with the same elements. |
| `ForwardLists.OneChanged` | simplex/allocator.h:784-824 | When one list of an allocator changes within what it owns, all lists stay linked and apart, and all others keep their elements. |
| `ForwardLists.ListStore.NewList` | simplex/allocator.h:711-716 | A new list is empty, owns a fresh address and leaves every other list as it was. |
| `ForwardLists.ListStore.InsertAfter` | simplex/allocator.h:784-808 | Inserting refines inserting into a sequence; every other list of the allocator keeps its nodes and its elements. |
| `ForwardLists.ListStore.EraseAfter` | simplex/allocator.h:810-824 | Erasing refines removing from a sequence; every other list keeps its nodes and its elements. |
| `ForwardLists.ListStore.Clear` | simplex/allocator.h:848-854 | Clearing leaves the empty sequence. |
| `ForwardLists.ListStore.Value` | simplex/allocator.h:874-879 | Reading gives the element at the position. |
| `ForwardLists.ListStore.Next` | simplex/allocator.h:881-890 | Advancing moves to the next position. |
| `ForwardLists.ListStore.Insert` | simplex/allocator.h:892-898 | Inserting puts a value before the current one and makes it current. |
| `ForwardLists.ListStore.Erase` | simplex/allocator.h:900-910 | Erasing removes the current element. |
| `ForwardLists.ListStore.AtEnd` | simplex/allocator.h:912-914 | The end is reached exactly at the length. |
| `Persistence.BookKeyFate` | orderbook/lmdb.cc:100-490 | Applying blocks one by one, which offers already on disk survive a run and with what amount. |
| `Persistence.CreatedKeyFate` | orderbook/lmdb.cc:100-490 | The same for offers that a block of the run creates. |
| `Persistence.GoneForGood` | orderbook/lmdb.cc:100-490 | A key that has been used and is gone never comes back in a valid run. |
| `Persistence.OrderbookLMDB.TakeRelevant` | orderbook/lmdb.cc:47-63 | Thunks up to the block leave the queue in order, and later ones stay. |
| `Persistence.TakenInPlace` | orderbook/lmdb.cc:47-63 | A thunk anywhere in the queue is taken, in its place, exactly when its block is at most the current one. |
| `Persistence.KeptInPlace` | orderbook/lmdb.cc:47-63 | It stays in its place otherwise. |
| `Persistence.OrderbookLMDB.DeleteCancelled` | orderbook/lmdb.cc:104-150 | Phase 1 deletes cancelled keys, remembers those not on disk, and finds the largest partial-exec key. |
| `Persistence.OrderbookLMDB.ClearBelow` | orderbook/lmdb.cc:152-206 | Phase 2 removes everything below that key, or everything when no thunk has one. |
| `Persistence.OrderbookLMDB.PutNewOffers` | orderbook/lmdb.cc:210-316 | Phase 3 puts the created offers that its backward scan reaches. |
| `Persistence.OrderbookLMDB.ShrinkPartial` | orderbook/lmdb.cc:320-436 | Phase 4 shrinks every partially executed offer by what it sold. |
| `Persistence.OrderbookLMDB.ClearOutrun` | orderbook/lmdb.cc:438-490 | Phase 5 removes offers that a later block of the batch cleared. |
| `Persistence.OrderbookLMDB.WriteThunks` | orderbook/lmdb.cc:38-505 | A batch ends in the book that applying its thunks one block at a time gives, if and only if the batch has no stale and no blocked offer; and key by key what any batch leaves: those blocks' book, with the stale offers still there and the blocked ones missing. |
| `Persistence.DiskKey` | orderbook/lmdb.cc:104-490 | What the five phases leave of an offer that was on disk. |
| `Persistence.NewKey` | orderbook/lmdb.cc:104-490 | What the five phases leave of an offer created in the batch. |
| `Persistence.BatchDecides` | orderbook/lmdb.cc:104-490 | The five phases agree with the block-by-block run exactly when the batch is exact. |
| `Persistence.LeavesThat` | orderbook/lmdb.cc:104-490 | What the five phases leave, key by key, exact or not. |
| `Persistence.PlainBatchExact` | orderbook/lmdb.cc:104-490 | Batches in which every thunk has a partial-exec key and no offer is both created and cancelled are exact. |
| `Persistence.StaleBatch` | orderbook/lmdb.cc:133-145 | A batch with a full-clear thunk that leaves an offer which should be gone. |
| `Persistence.BlockedBatch` | orderbook/lmdb.cc:282-308 | A batch whose created offer is never put because the scan stops at one cancelled later. |
| `OfferKeys.KeyParts` | orderbook/typedefs.h:69-82 | A key built from price, owner and id is the number they make in that order, and clearing reads just that price and that owner out of it. |
| `OfferKeys.KeysApart` | orderbook/typedefs.h:69-82 | Keys are the same only for the same price, owner and id; they sort by price first; comparing their bytes compares the numbers. |
| `OfferKeys.BeforeByValue` | orderbook/orderbook_manager_view.h:322-328 | Comparing byte strings of one length compares the numbers they stand for. |
| `OfferKeys.GenerateOrderbookTrieKey` | orderbook/typedefs.h:69-82 | The three writes into the buffer leave the key. |
| `Pricing.WideMultiplyExact` | utils/price.h:199-210 | The divide-first product is the floor of value times a over b. |
| `Pricing.RoundingExact` | utils/fixed_point_value.h:134-140 | Floor and ceiling, each by the inequalities that determine it. |
| `Pricing.ExchangeRateFloor` | orderbook/orderbook.cc:220-228 | Shift, divide and shift back is the floor of the price ratio in price units if and only if sell < buy * 2^40, and never more than it. |
| `Pricing.WithinRate` | utils/price.h:186-197 | A limit price within the rounded-down rate is within the exact one. |
| `Pricing.LimitRespected` | orderbook/offer_clearing_logic.h:66-73 | The exchanged value before tax is worth at least the limit price, up to one unit, for every limit within the rate. |
| `Pricing.TaxExact` | utils/fixed_point_value.h:151-158 | The tax is the rounded-up share and the payment the floor of what is left. |
| `Pricing.TaxAndRound` | utils/fixed_point_value.h:151-158 | A taxed amount never exceeds the amount. |
| `Clearing.SplitAtLowest` | orderbook/orderbook.cc:1071-1107 | Splitting a book by endowment leaves the lowest offer that no longer fits, and clears exactly those below it. |
| `Clearing.SplitByEndow` | orderbook/orderbook.cc:1011-1022 | Splitting by the total below a key clears exactly the offers below it. |
| `Clearing.TradesWithinRate` | orderbook/orderbook.cc:568-580 | With no more supply than the bound allows, every offer that trades asks at most sell over buy, and nothing is left over. |
| `Clearing.CeilFits` | orderbook/offer_clearing_logic.h:89-109 | The rounded-up partial amount fits the offer and tops the cleared total up to the ceiling of the supply. |
| `Clearing.DeductedIsCeiling` | orderbook/orderbook.cc:1071-1202 | Total deducted from sellers is exactly the ceiling of the supply activated. |
| `Payouts.FullPayExact` | orderbook/offer_clearing_logic.h:52-77 | A fully cleared offer is paid the one integer determined by its amount, the prices and the tax. |
| `Payouts.PartialPayExact` | orderbook/offer_clearing_logic.h:85-109 | So is a partly cleared one for its fractional amount. |
| `Payouts.PayWithin` | orderbook/offer_clearing_logic.h:52-109 | The payment is at most the exact worth after tax, and less than one unit and the rounding below it. |
| `Payouts.SellerProtected` | orderbook/offer_clearing_logic.h:52-109 | An offer within the rate is paid at least its limit's worth after tax, up to that rounding. |
| `Payouts.CreditIsOwn` | orderbook/orderbook.cc:64-93 | An owner is paid for its own offers and for all of them. |
| `BlockClearing.CheckClearing` | orderbook/commitment_checker.cc:166-212 | The check passes exactly when of every asset at least as much is sold as is bought after tax; it divides by zero exactly when some orderbook buys at price zero. |
| `Payouts.SuppliedClears` | orderbook/commitment_checker.cc:166-212 | A header whose exact demand after tax is supplied passes the check. |
| `Payouts.ClearsSupplied` | orderbook/commitment_checker.cc:166-212 | One that passes has its exact demand after tax supplied, up to one unit and the rounding of each orderbook. |
| `BlockClearing.GivenUpIsCeiling` | orderbook/commitment_checker.cc:214-240 | Whatever the commitment, an accepted clearing with matching statistics takes exactly the ceiling of the committed supply from the offers. |
| `BlockClearing.PaidWithin` | orderbook/offer_clearing_logic.h:52-109 | An orderbook pays out, offer by offer, at most what its committed supply is worth after tax. |
| `Payouts.PaidAtLeast` | orderbook/offer_clearing_logic.h:52-109 | It pays out at least that worth, less two units for each offer and four. |
| `BlockClearing.BlockSolvent` | speedex/speedex_operation.cc:488-545 | A block that passes the clearing check, with accepted clearings and matching statistics, pays out no more of any asset than the offers selling it give up. |
| `Payouts.BlockPaysOut` | speedex/speedex_operation.cc:488-545 | It pays out of every asset all that is bought of it after tax, less a bounded rounding for each offer and orderbook. |
| `BlockClearing.BlockConserves` | speedex/speedex_operation.cc:488-545 | So over such a block the accounts together gain no more of any asset than the offers selling it give up. |
| `Payouts.SettledExact` | orderbook/orderbook.cc:64-93 | When every owner has an account, the accounts together gain exactly what an orderbook pays out. |
| `Clearing.ValidatorAgrees` | orderbook/orderbook_manager_view.h:291-357 | Clearing new offers on arrival by key and then splitting at the threshold key accepts the commitment, clears the same offers, ends with the same book, and the statistics add up. |
| `Clearing.ArrivalBooks` | orderbook/orderbook_manager_view.h:313-357 | What arrives below the key and what rests are the two parts of the new offers. |
| `Orderbook.ApplyClear` | orderbook/orderbook.cc:47-94 | Applying a cleared trie pays every owner, for each of its offers, the full payment (Payouts.FullPayExact), and fails exactly at an offer that may not be cleared. |
| `Orderbook.Orderbook.TentativeCommitForValidation` | orderbook/orderbook.cc:96-110 | Commit takes out cancelled offers, puts in the new ones and records both in a thunk. |
| `Orderbook.Orderbook.ProcessClearOffers` | orderbook/orderbook.cc:1059-1203 | The producer clears, pays, records and commits exactly as the specification function says; it throws exactly outside the stated conditions, which an allowed supply meets. |
| `Orderbook.Orderbook.TentativeClearOffersForValidation` | orderbook/orderbook.cc:884-1039 | The validator clears, pays and records against a commitment exactly as the specification function says; it accepts, refuses, or throws exactly under the stated conditions, for every commitment. |
| `Orderbook.Orderbook.RollbackValidation` | orderbook/orderbook.cc:158-176 | Rollback drops the marked offers of the book and undoes the newest thunk; cleared offers come back with the markers they had. |
| `Orderbook.Orderbook.RollbackThunks` | orderbook/orderbook.cc:1205-1226 | Rolling back undoes every thunk newer than the round, oldest first, and keeps the others; it throws exactly when later rounds are persisted already. |
| `Orderbook.NewestOnly` | orderbook/orderbook.cc:1205-1226 | When only the newest thunk is newer than the round, rolling back undoes just that one. |
| `Orderbook.ValidatingSerialManager.AddOffer` | orderbook/orderbook_manager_view.h:291-357 | One arriving offer clears at once or joins the local trie by comparison with the threshold key. |
| `Orderbook.ReceiveOffers` | orderbook/orderbook_manager_view.h:291-365 | Any sequence of arrivals leaves the resting part, pays the cleared part and counts its supply. |
| `Orderbook.ReceiveBlock` | orderbook/orderbook.cc:206-210 | The offers that wait join the orderbook with the rollback marker, the others are paid. |
| `Orderbook.PaymentsAgree` | orderbook/orderbook.cc:884-1039 | Any payments that complete the producer's clearing and the validator's come to the same balances; that both complete is Validation.ProduceAndValidate. |
| `Validation.HonestAllowed` | orderbook/orderbook.cc:884-1039 | Clearing the producer's own commitment meets no throw, for every book, block and supply a producer may activate. |
| `Validation.ValidateBlock` | orderbook/orderbook_manager_view.h:291-357 | Receive, commit and clear one after the other, for every commitment: accepted exactly when the specification allows it, with its book and payments; and every trade is within its limit exactly when the arrivals that clear and the threshold offer are. |
| `Validation.ValidateHonestBlock` | speedex/speedex_operation.cc:500-545 | Given the producer's own commitment a validator accepts, its statistics match, and it comes to the producer's book and balances with every limit kept. |
| `Validation.ProduceAndValidate` | orderbook/orderbook.cc:884-1203 | A producer and a validator that start with the same book and balances end with the same book and balances. |
| `Validation.LimitsExact` | orderbook/orderbook_manager_view.h:291-357 | An accepted clearing keeps every limit if and only if the new offers that clear on arrival, and the threshold offer if some of it trades, are within theirs: nothing else is left unchecked. |
| `Validation.HonestInLimit` | orderbook/orderbook.cc:1071-1107 | The producer's own commitment keeps every limit. |
| `Validation.LimitCanBeMissed` | orderbook/orderbook_manager_view.h:337-357 | A concrete commitment, accepted with matching statistics, at which a new offer trades at half its limit. |
| `SupplyDecides.SupplyDecidesBook` | orderbook/orderbook.cc:884-1039 | Whatever the commitment, a validator that accepts it with matching statistics comes to the book of a producer that activates the committed supply. |
| `SupplyDecides.SupplyDecidesPayments` | orderbook/orderbook.cc:884-1039 | And to that producer's balances, when every owner has an account. |
| `Orderbook.ProducerUndo` | orderbook/orderbook.cc:112-141 | Undoing a producer's block restores the earlier book if and only if the partially executed offer is not one of the block's new offers. |
| `Orderbook.ProducerUndoCanFail` | orderbook/orderbook.cc:112-141 | A concrete block whose undo puts back a new offer that was not there before. |
| `Orderbook.ProduceBlock` | orderbook/orderbook.cc:1059-1203 | Commit and clear one after the other: when it succeeds, the book, the commitment, the balances, and the thunk that the undo is about. |
| `Orderbook.ValidatorUndo` | orderbook/orderbook.cc:158-176 | For every commitment whose clearing is accepted: refusing the block afterwards restores the earlier book if and only if the commitment is null, the block has no new offer, or the threshold key is that of an offer there before. |
| `Orderbook.RefusedUndo` | orderbook/orderbook.cc:158-176 | For every commitment whose clearing is refused: the rollback restores the earlier book if and only if the commitment is null or the threshold key is not that of a new offer. |
| `Orderbook.ValidatorUndoCanFail` | speedex/speedex_operation.cc:528-545 | A concrete commitment with key zero that clearing accepts and the statistics refuse, whose rollback leaves the new offer in the book. |
| `Orderbook.RefuseBlock` | speedex/speedex_operation.cc:528-545 | Commit, clear and roll back one after the other, on the orderbook itself, have exactly these conditions; markers are left exactly on new offers that come back with a whole book that cleared. |
| `Orderbook.AcceptedShape` | orderbook/orderbook.cc:884-1039 | Whatever the commitment, an accepted clearing takes whole offers away, shrinks at most the threshold offer and leaves the rest; without a threshold offer the key is zero. |
| `Orderbook.UndoOf` | orderbook/orderbook.cc:112-141 | Over any cleared book, undoing restores the earlier book if and only if the partially executed offer is not among the new offers still in the book. |
| `Orderbook.StepPersists` | orderbook/thunk.h:50-96 | The thunk a block leaves is one the batch expects, and applied on disk it gives the book that clearing left in memory. |
| `Orderbook.ProducedStep` | orderbook/orderbook.cc:1059-1203 | A producer's block is such a block. |
| `Orderbook.ValidatedStep` | orderbook/orderbook.cc:884-1039 | So is a validator's, for every commitment it accepts. |
| `Orderbook.StepsPersist` | orderbook/lmdb.cc:38-505 | The thunks of any run of such blocks are a run the batch expects, and applied one by one they give the book in memory. |
| `Orderbook.Persist` | orderbook/lmdb.cc:38-505 | Persisting them in one batch leaves on disk the book in memory if and only if the batch has no stale and no blocked offer. |
| `Demand.GetMetadata` | orderbook/orderbook.cc:481-518 | Binary search in the cumulative index gives the totals of all offers with limit price at most p. |
| `Demand.EntryTotals` | orderbook/orderbook.cc:184-191 | Between two index entries the totals are those of the lower one. |
| `Demand.SplitProductExact` | orderbook/orderbook.cc:657-667 | The two-part 128-bit product is the floor of x times p over 2^24 whenever that fits. |
| `Demand.VolumesTimesPrices` | orderbook/orderbook.cc:622-689 | Computes the volumes with the source's wrap-around and both throws; for totals in range it is the exact trade. |
| `Demand.BetweenRates` | orderbook/orderbook.cc:520-557 | Offers between the two rates are worth at their limits at most what they are worth at the rate. |
| `Demand.DemandExact` | orderbook/orderbook.cc:622-689 | In range, neither throw is reached, nothing wraps, and the volume is the exact sum over the offers. |
| `Demand.DemandTimesPrices` | orderbook/orderbook.cc:596-620 | The query is that exact sum. |
| `DemandShares.VolumeIsShares` | orderbook/orderbook.cc:622-689 | The volume is the sum over the offers: an offer's whole worth up to the lower rate, nothing above the rate, and between them the part above its limit scaled by the smoothing; rounded by less than one unit before smoothing. |
| `DemandShares.ShareBetween` | orderbook/orderbook.cc:664-681 | Between the rates an offer trades in proportion to how far the rate is above its limit, up to the stated rounding, at least nothing and never more than all. |
| `DemandShares.ShareMonotone` | orderbook/orderbook.cc:664-681 | The share does not grow with the limit. |
| `Demand.Threshold` | orderbook/orderbook.cc:300-330 | The search finds the least price up to which offers exceed the amount, or that there is none. |
| `Demand.MaxFeasibleSmoothMult` | orderbook/orderbook.cc:285-343 | The factor found is the largest whose step still reaches the threshold, and 255 only when no price below the rate exceeds the amount; the supply bound that the code derives from the factor is within the amount exactly when all supply up to the rate is (for 255), or when the distance from the rate to the threshold is at most half the rate and no halving of it (for any other). |
| `Demand.SmoothingExact` | orderbook/orderbook.cc:331-343 | With the threshold below the rate, the lower supply bound at the answer is within the amount if and only if the distance to the threshold is at most half the rate and no halving of it; every smaller factor but zero is feasible, zero is not, and no larger one is. |
| `Demand.UnlimitedExact` | orderbook/orderbook.cc:326-330 | When the answer is 255, it is feasible if and only if the supply up to the rate itself is within the amount; otherwise the feasible factors are those that take something off the rate. |
| `Demand.FeasibleBelow` | orderbook/orderbook.cc:549-553 | A factor is feasible exactly when it is not zero and moves the lower rate below the threshold. |
| `Demand.SmoothingCanOvershoot` | orderbook/orderbook.cc:331-343 | A concrete book with answers 1, 0 and 255 that are not feasible. |
| `Ledger.DirectExact` | block_processing/serial_transaction_processor.cc:308-427 | A list of actions is carried out exactly when none is a rejection, no resource is wanted twice, and every withdrawal is covered by what came before. |
| `Ledger.DirectLevel` | block_processing/serial_transaction_processor.cc:491-697 | A list that is carried out moves every balance and every reservation by its weight. |
| `Effects.OpEffect` | block_processing/serial_transaction_processor.cc:491-697 | An operation is not rejected exactly when it is permitted, and moves every balance by what the account gets less what it gives: payments reach their receiver, starting balances the new account, cancelled and printed amounts the sender. |
| `Effects.TxMoves` | block_processing/serial_transaction_processor.cc:308-427 | After a transaction that is carried out, every account has of every asset what it had, what its operations give it, less what they take, and for the sender less the fee. |
| `Effects.StrangersKeep` | block_processing/serial_transaction_processor.cc:643-679 | No balance arises outside the accounts there before and those it creates. |
| `Effects.TxMakes` | block_processing/serial_transaction_processor.cc:537-580 | The new offers are those its operations make, each with its category, price, owner, number and amount. |
| `Effects.TxTakes` | block_processing/serial_transaction_processor.cc:308-427 | It reserves its sequence number, the ids of the accounts it creates and the offers it cancels, and nothing else. |
| `Effects.BlockMoves` | block_processing/serial_transaction_processor.cc:308-427 | Over a run every balance moves by the net changes of the transactions carried out. |
| `Effects.ValidateMoves` | block_processing/serial_transaction_processor.cc:167-283 | A validated block moves every balance by the net changes of all its transactions. |
| `Ledger.LookUpExact` | orderbook/utils.h:52-73 | A cancellation has no orderbook exactly when an asset is out of range, which throws, or the last asset is sold for itself, which reads past the end. |
| `Ledger.OpThrows` | block_processing/serial_transaction_processor.cc:595-628 | An operation that is reached ends in a fault exactly when it cancels in such a category. |
| `Ledger.TxThrows` | block_processing/serial_transaction_processor.cc:308-427 | A transaction ends in a fault exactly when it is admitted and reaches such a cancellation with every earlier operation carried out. |
| `Ledger.CancelCanThrow` | block_processing/serial_transaction_processor.cc:595-628 | Two concrete transactions that end in the two faults, whatever the ledger, if their sender can pay the fee. |
| `Ledger.OpSupply` | block_processing/serial_transaction_processor.cc:491-697 | An operation adds to the supply of an asset only what it prints. |
| `Ledger.TxSupply` | block_processing/serial_transaction_processor.cc:308-427 | A transaction changes the supply of an asset by what it prints and the fee it pays. |
| `Ledger.BlockSupply` | block_processing/serial_transaction_processor.cc:308-427 | Over every run that meets no fault, balances plus live offers of each asset change only by money printed and fees charged. |
| `Ledger.DirectSame` | block_processing/serial_transaction_processor.cc:308-427 | Missing balances and zero balances are interchangeable. |
| `Ledger.SupplySame` | memory_database/user_account.h:89-102 | Supply does not depend on which zero balances have been allocated. |
| `DatabaseViews.RevertableAsset.ConditionalTransferAvailable` | memory_database/revertable_asset.h:141-177 | The compare-and-swap loop, against any interference, has the outcome of one indivisible conditional withdrawal. |
| `DatabaseViews.RevertableAsset.Commit` | memory_database/revertable_asset.h:200-205 | Commit makes the current amount the committed one. |
| `DatabaseViews.RevertableAsset.Rollback` | memory_database/revertable_asset.h:208-210 | Rollback restores the committed amount. |
| `DatabaseViews.MemoryDatabase.ReserveAccountCreation` | memory_database/memory_database.cc:386-396 | An id is reserved unless the account exists or is already reserved. |
| `DatabaseViews.DatabaseView.ChangeBuffered` | memory_database/memory_database_view.cc:25-65 | A withdrawal uses the buffer first and succeeds exactly when buffer and balance cover it; what unwinding would restore does not change. |
| `DatabaseViews.DatabaseView.TransferAvailable` | memory_database/memory_database_view.cc:143-181 | A transfer moves the balance the transaction sees, and fails exactly when a buffered withdrawal is not covered. |
| `DatabaseViews.DatabaseView.Escrow` | memory_database/memory_database_view.cc:88-141 | The same for escrow and release. |
| `DatabaseViews.DatabaseView.CreateNewAccount` | memory_database/memory_database_view.cc:279-300 | A created account is local to the transaction and its id is reserved. |
| `DatabaseViews.DatabaseView.Commit` | memory_database/memory_database_view.cc:199-207 | After commit the database shows exactly what the transaction saw. |
| `DatabaseViews.DatabaseView.Unwind` | memory_database/memory_database_view.cc:209-218 | After unwinding every balance, reserved number and reserved id is as before. |
| `Transactions.SerialTransactionHandler.ProcessCreateAccount` | block_processing/serial_transaction_processor.cc:491-533 | Creating an account does what its actions do directly, with the same status. |
| `Transactions.SerialTransactionHandler.ProcessCreateOffer` | block_processing/serial_transaction_processor.cc:537-580 | Creating an offer likewise; on failure the local offers are as before. |
| `Transactions.SerialTransactionHandler.ProcessCancelOffer` | block_processing/serial_transaction_processor.cc:595-628 | Cancelling an offer likewise, faults included; on failure the marks are as before. |
| `Transactions.SerialTransactionHandler.ProcessPayment` | block_processing/serial_transaction_processor.cc:643-679 | A payment likewise; whom it reaches is Effects.OpEffect. |
| `Transactions.SerialTransactionHandler.ProcessMoneyPrinter` | block_processing/serial_transaction_processor.cc:683-697 | Printing money likewise. |
| `Transactions.SerialTransactionHandler.ProcessOperation` | block_processing/serial_transaction_processor.cc:379-404 | Dispatch on the operation type, an unknown one being an error. |
| `Transactions.SerialTransactionHandler.UnwindTransaction` | block_processing/serial_transaction_processor.cc:429-480 | Undoing the operations in reverse restores the local offers and the cancellation marks. |
| `Transactions.SerialTransactionHandler.ProcessOperations` | block_processing/serial_transaction_processor.cc:370-418 | The operation loop stops at the first failure with everything needed to undo. |
| `Transactions.SerialTransactionHandler.ProcessTransaction` | block_processing/serial_transaction_processor.cc:308-427 | For every operation list: a transaction is carried out entirely, as its actions directly, every balance then moved as its operations say; or it fails with the first failing status and is a no-op on balances, reservations, marks and offers; or it ends in the fault of the specification. |
| `Transactions.SerialTransactionHandler.ProcessTransactions` | block_processing/serial_transaction_processor.cc:308-427 | Over every run the ledger is that of the all-or-nothing specification, and a fault is met exactly where the specification meets it. |
| `Transactions.SerialTransactionHandler.ValidateTransaction` | block_processing/serial_transaction_processor.cc:167-283 | A validator accepts exactly the transactions whose actions are carried out without balance checks, and applies them, every balance moved as their operations say; it meets a fault exactly where they do. |
| `Producers.SoloDirect` | memory_database/memory_database_view.cc:25-86 | Without interference, eager withdrawals and buffered credits accept exactly what the direct reading accepts, and committing comes to the same ledger. |
| `Producers.PerformDebit` | memory_database/revertable_asset.h:141-177 | An eager withdrawal, atomic on the shared balance, moves ledger and view alike and leaves no balance negative. |
| `Producers.NextKeeps` | memory_database/memory_database_view.cc:25-86 | Every atomic step of every producer keeps the balance between the ledger, committed transactions and work in progress. |
| `Producers.TraceKeeps` | memory_database/memory_database_view.cc:25-86 | So does every interleaving. |
| `Producers.ValidatorExact` | block_processing/serial_transaction_processor.cc:167-283 | A validator accepts a list of transactions exactly when each is valid and no resource is wanted twice, and comes to the initial levels plus all their effects. |
| `Producers.ValidatorThrows` | block_processing/serial_transaction_processor.cc:167-283 | A validator meets a fault exactly at a transaction that it reaches with all earlier ones accepted and that ends in that fault. |
| `Producers.ValidateOffers` | block_processing/serial_transaction_processor.cc:167-283 | The offers a validator adds are those of its transactions. |
| `Producers.OffersPermute` | block_processing/serial_transaction_processor.cc:167-283 | Two orders of the same transactions make the same offers, each with the same amount. |
| `Producers.TallyPermutes` | block_processing/serial_transaction_processor.cc:167-283 | The effects of a list of transactions do not depend on its order. |
| `Producers.AnyOrder` | block_processing/serial_transaction_processor.cc:167-283 | Whatever the interleaving of producers, a validator accepts the committed transactions in any order and reaches the same balances, reservations, cancelled offers and new offers, all balances nonnegative. |
| `SequenceTrackers.SetBit` | memory_database/sequence_tracker.h:198-202 | Setting a mask sets that bit alone. |
| `SequenceTrackers.ClearBit` | memory_database/sequence_tracker.h:228-233 | Clearing with a complement clears that bit alone. |
| `SequenceTrackers.Width` | memory_database/sequence_tracker.cc:34-38 | 64 less the leading zeros is one more than the highest bit. |
| `SequenceTrackers.UInt64SequenceTracker.ReserveSequenceNumber` | memory_database/sequence_tracker.cc:58-82 | Reserving in one word is reserving in the set of offsets, with the same three refusals. |
| `SequenceTrackers.UInt64SequenceTracker.ReleaseSequenceNumber` | memory_database/sequence_tracker.cc:84-101 | Releasing takes the offset out of the set, and throws exactly when the number is outside the window. |
| `SequenceTrackers.UInt64SequenceTracker.Commit` | memory_database/sequence_tracker.cc:115-120 | Commit moves the last number to the highest reserved one and empties the set. |
| `SequenceTrackers.BoundedSequenceTracker.ReserveSequenceNumber` | memory_database/sequence_tracker.h:183-210 | Reserving in the array of words is reserving in the same set. |
| `SequenceTrackers.BoundedSequenceTracker.ReleaseSequenceNumber` | memory_database/sequence_tracker.h:212-234 | Releasing takes the offset out of the set, and throws exactly when the number is outside the window. |
| `SequenceTrackers.BoundedSequenceTracker.GetSeqNumIncrement` | memory_database/sequence_tracker.h:135-150 | The downward scan finds one more than the highest reserved offset. |
| `SequenceTrackers.BoundedSequenceTracker.Commit` | memory_database/sequence_tracker.h:243-254 | Commit moves the last number to the highest reserved one and empties the set. |
| `SequenceTrackers.BoundedSequenceTracker.Rollback` | memory_database/sequence_tracker.h:256-264 | Rollback empties the set and keeps the last number. |
| `SequenceTrackers.AlignedOffset` | memory_database/sequence_tracker.h:128-133 | For aligned numbers the offset is exact. |
| `SequenceTrackers.WindowAgrees` | memory_database/sequence_tracker.h:183-195 | The window that admission checks is a tracker's window. |
| `SequenceTrackers.GrantedOnce` | memory_database/sequence_tracker.h:183-210 | A number is granted only when it is neither committed nor reserved, and is refused as in use exactly when reserved. |
| `SequenceTrackers.CommitOnce` | memory_database/sequence_tracker.h:243-254 | A commit commits no number that was committed before, and moves to the largest reserved one. |
| `SequenceTrackers.TraceSound` | memory_database/sequence_tracker.h:183-264 | Over every run the committed number never falls and is one of those committed. |
| `SequenceTrackers.TraceNumbers` | memory_database/sequence_tracker.h:183-264 | Over every run of aligned numbers the tracker is a plain set of numbers: each commit moves to the largest number reserved since the last one and not taken back, and commits just those. |
| `Cda.FillSound` | cda/serial_ob.cc:76-131 | One fill never costs more than is left nor takes more than is offered, takes part only when nothing is left, pays the maker its price, and overpays by less than one unit. |
| `Cda.ExecuteConserves` | cda/serial_ob.cc:47-151 | The book gives up exactly what the taker buys and makers are paid exactly what it sells. |
| `Cda.ExecuteExhausts` | cda/serial_ob.cc:47-151 | A taker with something left has exhausted every maker within its limit. |
| `Cda.ExecuteFair` | cda/serial_ob.cc:69-112 | Every maker is filled from the book, within the limit, and at no less than its price. |
| `Cda.ExecuteInOrder` | cda/serial_ob.cc:47-151 | Makers beyond the limit are not touched, and none is while a better one is left. |
| `Cda.MaxPriceExact` | cda/serial_ob_experiment.cc:32 | The limit a taker passes on is exactly where two prices stop crossing. |
| `Cda.TakerPays` | cda/serial_ob.cc:47-151 | All a taker sells, at its own price, is worth at most what it buys, up to one unit for each maker and one more. |
| `Cda.TakerIsProtected` | cda/serial_ob_experiment.cc:28-101 | A taker is matched only with makers whose price crosses its own, the best first; one that does not cross is not touched, and every one that does is used up before anything of the taker rests. |
| `Cda.PayConserves` | cda/serial_ob.cc:101-109 | Payments add exactly their costs to the balances. |
| `Cda.SerialOrderbook.TryExecute` | cda/serial_ob.cc:47-151 | The matching loop with deferred deletions and one reinsertion is the specification's execution; none of its throws is reachable. |
| `Cda.RestsUncrossed` | cda/serial_ob_experiment.cc:31-98 | What rests does not cross what is left of the book it was matched with. |
| `Cda.TradeConserves` | cda/serial_ob_experiment.cc:46-98 | One trade conserves each asset exactly across accounts and resting offers. |
| `Cda.TradeSettles` | cda/serial_ob_experiment.cc:46-98 | Each maker is paid for its own fills, the taker gives its offer and gets what it bought, nobody else is touched, and the rest rests at the taker's key. |
| `Cda.StepKeeps` | cda/serial_ob_experiment.cc:28-101 | One offer keeps the books uncrossed, accounts solvent and supplies exact; a failed escrow changes nothing. |
| `Cda.RunKeeps` | cda/serial_ob_experiment.h:49-55 | Over every run of offers the books are never crossed and each asset is conserved. |
| `Cda.RunProtects` | cda/serial_ob_experiment.h:49-55 | Over every run each taker's limit holds. |
| `Cda.TicketParts` | cda/serial_ob_experiment.cc:43 | Two offers reserve the same number exactly when they agree in owner and aligned number. |
| `Cda.SerialOrderbookExperiment.ExecOneOffer` | cda/serial_ob_experiment.cc:28-101 | The method does one step of the specification. |
| `Cda.SerialOrderbookExperiment.ExecOffers` | cda/serial_ob_experiment.h:49-55 | The loop does a run of it. |

## Left out

- Solver.SimplexLPSolver.RunSimplex: termination is not claimed, because the choice of the newest hint has no rule against cycling; a bound on the number of pivots stands in for it, and giving up means that so many improving pivots were made.
- Solver.SimplexLPSolver.CheckFeasibility: partial correctness for the same reason; within the bound the answer is exact.
- Solver.SimplexLPSolver.AddOrderbookConstraint: the categories given to the solvers are those of the orderbooks, so they are valid; CheckFeasibility takes every orderbook at most once among those with lower < upper, as the source's callers do.
- TaxFree.TaxFreeSimplex.RunSimplex: the number of pivots is bounded; objective entries are integers where the source has 8 bits for them, and they are proved to fit when there are at most 126 assets and orderbooks together; the optimum is stated when no capacity is negative, since a run from a negative one does not start at a solution.
- BitRows.BitcompressedRow.SetSign: reads of a lane shift two bits at a time.
- ForwardLists.Allocator.Allocate: the number of rows is unbounded, while the source has 32 bits for it.
- Demand.DemandTimesPrices: amounts add up to less than 2^64, prices have 48 bits and the smoothing factor is at most 15, as the source's own comment requires.
- Producers.AnyOrder: the validator's new offers are compared before any of them clears on arrival; that clearing is Orderbook.ReceiveOffers, and its payments are Orderbook.PaymentsAgree.
- DatabaseViews.DatabaseView.TransferAvailable: balances are unbounded, so the wrap of 64-bit sums that unlimited money printing could reach is not modelled.
- Transactions.SerialTransactionHandler.ProcessCancelOffer: the branch that takes a mark back cannot be reached.
- Transactions.SerialTransactionHandler.ProcessTransaction: after a fault the process ends, or its behaviour is undefined, and nothing is said of the state it leaves.
- Orderbook.RefusedUndo: the flag `exists_partial_exec` of a thunk has no initial value in the source until a clearing sets it; the model starts it at false.
- Orderbook.RefuseBlock: a clearing that throws is not caught anywhere and ends the process; nothing is said of the book it leaves.
- Clearing.CeilFits: committed amounts are unbounded; that the source truncates what a partial amount takes from its offer to 64 bits is not modelled.
- BlockClearing.CheckClearing: sums and products of committed amounts are unbounded where the source has 128 bits for them.
- Demand.ExecutionPrices: shifting by 64 or more, which the source leaves undefined, gives zero.
- Cda.SerialOrderbookExperiment.ExecOneOffer: the view's credits go straight to the balances, since the view commits at the end of every offer.
- Widths of the simplex solvers: 128-bit values, 16-bit indices and the 16-bit values in list words are unbounded. In the feasibility check the 8-bit objective entries are proved to stay in {-1, 0, 1}.
- Persistence reads records by key; the order in which the cursor of phase 2 meets them, and database errors, are not modelled.
- Clearing in several worker threads: one local manager stands for all of them, and statistics are one sum.
- Orderbook.Orderbook.RollbackThunks: what is undone is stated for any number of thunks; that the earlier book comes back is proved for the newest one alone, since the source undoes them oldest first.
- Demand queries with tax rebates (`orderbook/orderbook.cc:691-882`) and the floating-point variants of the queries.
- Building a solution in the tax-free solver (`simplex/simplex.cc:218-314`), the unused compressed list, and the sparse packed row.
- The price search, linear-program library, relativizers, networking, consensus, serialization, trie hashing, block space accounting and modification logs.
- Whole-block failure of a validator after transactions are accepted, and account creation rollback.
