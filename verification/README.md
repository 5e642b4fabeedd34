# Bookmarks, ratings, soft deletion and region scope in wherethefuck

This project models the data core of the wherethefuck POI service:

- **A user's ratings.** There is at most one rating per POI, with a score clamped to 0..10.
- **A user's bookmark list.** There is at most one bookmark per POI, and each bookmark has an `order`. `bookmark` appends to the list. `unbookmark` deletes a bookmark and closes the gap. `bookmark_move` pops a bookmark out and then either pushes it to the end or puts it just before another bookmark.
- **The soft-delete visibility filter** shared by the models.
- **Country and province scope.** This is the rule for which regions a staff user may manage.

## Modules

- **`Queries`** (`queries.dfy`): an `Option` type, the `UserId` key that rows refer to, and `Filter`, an order-preserving `queryset.filter(...)`.
- **`SoftDelete`** (`soft_delete.dfy`): the two deletion columns, their defaults and `SoftDeletedQueryset.all()`. The model follows the code: a row is visible when `deleted` is false **and** `deleted_by` is null. The comment above the filter talks about null fields counting as deleted, and the model does not follow it.
- **`Regions`** (`regions.dfy`): countries and provinces, each with one managing user. `managers` is a single foreign key. A province also records its parent country, which it must have. `CountryAllowedFor` takes the table's manager column as a parameter, because the source applies `CountryQuerySet` to both tables. The module covers both `allowed_for` rules and how `Province.objects` is actually wired.
- **`Orders`** (`orders.dfy`): the order column of one user's bookmarks, as a map from POI to order.
  - `Dense` says the orders are exactly 1..N with none shared.
  - `Represents(m, s)` ties such a map to the ordered list `s`.
  - The bulk updates `update(order=F('order') ± 1)` are `ShiftDown` and `ShiftUp`.
  - The lemmas prove that each user operation is the list operation it stands for: append, remove at an index, move to the end, or insert before another element.
- **`Accounts`** (`user.dfy`): the class `User`.
  - Its rows are held in fields: `bookmarks` and `ratings`, plus a ghost field `List` for the ordered list the bookmarks stand for.
  - Its methods change those rows step by step, in the same order as the source: delete, save, bulk shift, then re-read the maximum.
  - Every method keeps `Valid()`, which says that `bookmarks` stands for `List` and that every score is in 0..10. `User.ValidIsDense` and `Orders.DenseHasList` show that this is the same as density.

## Model

| member | source | states |
|---|---|---|
| Accounts.Clamp | wtfapi/models/user.py:83 | the stored score is in 0..10; a score in range is kept, one below 0 becomes 0, one above 10 becomes 10 |
| Accounts.ClampIdempotent | wtfapi/models/user.py:83-87 | re-rating a POI with a score that is already stored stores it unchanged |
| Accounts.User.Rate | wtfapi/models/user.py:76-87 | the POI's rating becomes the clamped score, whether it existed or not; an existing rating is overwritten, not duplicated (unique (user, poi)); bookmarks untouched; scores stay in 0..10 |
| Accounts.User.Unrate | wtfapi/models/user.py:89-101 | returns true iff the user had a rating of the POI; that rating and nothing else is removed; with no rating nothing changes; bookmarks untouched |
| Accounts.User.MaxOrder | wtfapi/models/user.py:113 | the aggregate `Max('order') or 0`: no bookmark's order exceeds the result; the result is 0 for no bookmarks and is some bookmark's order otherwise |
| Accounts.User.Bookmark | wtfapi/models/user.py:103-114 | an existing bookmark is returned with created = false and nothing changes; otherwise the POI gets order N + 1, i.e. is appended to the list, created = true, and the other orders and the ratings are unchanged; the orders stay dense |
| Accounts.User.Unbookmark | wtfapi/models/user.py:116-130 | returns true iff the POI was bookmarked; then exactly that row is deleted, every larger order drops by one, and the list is the old list without that POI (the rest keep their relative order); no bookmark: no change; the orders stay dense |
| Accounts.User.BookmarkMove | wtfapi/models/user.py:132-172 | returns false and changes nothing when `bookmark` or a given `before` belongs to another user; with no `before` the bookmark ends up last (order N) and the rest keep their relative order; with `before` another bookmark, the moved one lands immediately before it (its order is one less than `before`'s new order) and the rest keep their order; moving a bookmark before itself leaves the list as it is (corrected: see Findings); the set of bookmarked POIs never changes and the orders stay dense |
| Accounts.User.MoveToEnd | wtfapi/models/user.py:144-158 | `_popout` then `_pushback`: the moved POI leaves its index and is appended, with order N |
| Accounts.User.MoveBeforeOther | wtfapi/models/user.py:144-171 | `_popout`, re-read of `before`, shift of every order from there up by one, save: the result is `MoveBefore` of the old orders, `before` sits one order after the moved bookmark, and the list is the old one with the POI taken from its index and put back immediately before `before` |
| Accounts.ScoresInRange | wtfapi/models/user.py:204 | every stored score is within 0..10: the column is a positive small integer with a maximum of 10 |
| Accounts.User.Valid | wtfapi/models/user.py:187-204 | the class invariant: the bookmark orders stand for the ordered list `List` (one order per POI, dense 1..N), and every score is within 0..10 |
| Accounts.User.ValidIsDense | wtfapi/models/user.py:189-190 | a valid user's bookmark orders are pairwise distinct (unique (user, order)) and all within 1..N |
| Accounts.MaxOfListIsLength | wtfapi/models/user.py:113 | on dense orders the maximum is N, so `1 + max` is N + 1 |
| Accounts.PoppedMaxIsLength | wtfapi/models/user.py:150-152 | after `_popout` the maximum, which includes the row parked at 0, is N - 1, so `_pushback` writes order N |
| Accounts.UnbookmarkAsWritten | wtfapi/models/user.py:123-127 | as written: a missing POI returns false with no change; a bookmarked POI has its row deleted, every other row keeps its order, and the call then raises FieldError on the `order_gt` lookup |
| Accounts.UnbookmarkAsWrittenLeavesGap | wtfapi/models/user.py:126-127 | unbookmarking any bookmark but the last, as written, raises and leaves the orders not dense (the last order stays N, above the new count) |
| Accounts.PopOutAsWritten | wtfapi/models/user.py:144-148 | as written: the row is parked at order 0 and the call then raises FieldError on the `order_gt` lookup; no other order changes |
| Accounts.MoveAsWrittenLeavesOrderZero | wtfapi/models/user.py:144-166 | every move that passes the ownership checks (both branches start with `_popout`), as written, raises and leaves the orders not dense with the moved bookmark at 0, below every other bookmark |
| Orders.Injective | wtfapi/models/user.py:190 | no two bookmarks of one user share an order: unique (user, order) |
| Orders.Dense | wtfapi/models/user.py:184-190 | the orders of one user's bookmarks are pairwise distinct (unique (user, order)) and lie within 1..N, N being the number of bookmarks |
| Orders.DenseIsOneToN | wtfapi/models/user.py:187-190 | the orders are dense iff no order is shared and the set of orders is exactly {1..N} |
| Orders.RepresentsIsDense | wtfapi/models/user.py:187-190 | orders that stand for an ordered list are dense |
| Orders.DenseHasList | wtfapi/models/user.py:187-190 | dense orders always stand for some ordered list |
| Orders.RepresentsUnique | wtfapi/models/user.py:187-190 | a list determines its orders: two order maps for the same list are equal |
| Orders.RepresentsIndex | wtfapi/models/user.py:187 | a bookmarked POI's order is within 1..N, and the POI sits at index order - 1 of the list |
| Orders.RepresentsKeys | wtfapi/models/user.py:189-190 | the bookmarked POIs are exactly the POIs of the list |
| Orders.ShiftDown | wtfapi/models/user.py:127 | the decrementing bulk update touches orders only: the same rows remain |
| Orders.ShiftUp | wtfapi/models/user.py:169 | the incrementing bulk update touches orders only: the same rows remain |
| Orders.AppendKeepsList | wtfapi/models/user.py:113-114 | giving a new POI order N + 1 appends it to the list |
| Orders.RemoveKeepsList | wtfapi/models/user.py:124-127 | deleting the row at index i and decrementing the orders above i + 1 removes exactly that element from the list |
| Orders.InsertKeepsList | wtfapi/models/user.py:167-171 | for a POI not in the list, shifting the orders >= j + 1 up and giving the POI order j + 1 inserts it at index j |
| Orders.PopOut | wtfapi/models/user.py:144-148 | `_popout` with the lookup spelled `order__gt`: the same rows remain and the popped one is parked at order 0 |
| Orders.PopOutClosesGap | wtfapi/models/user.py:144-148 | `_popout` closes the gap: an order below the popped one is unchanged, an order above it drops by one |
| Orders.PopOutKeepsList | wtfapi/models/user.py:144-148 | `_popout` parks the POI at 0, and the other rows stand for the list without it |
| Orders.ShiftUpOverParked | wtfapi/models/user.py:163-171 | a row parked at 0 is below every shift point, so shifting and then overwriting it is the same as inserting it afresh |
| Orders.MoveBeforeSteps | wtfapi/models/user.py:163-171 | the move-before branch with the lookups spelled as intended (`order__gt`, `order__gte`): the same rows remain; moving a bookmark before itself leaves it at order 0; moving it before another bookmark puts that bookmark exactly one order after it |
| Orders.MoveBefore | wtfapi/models/user.py:160-171 | the move-before branch as intended: the same rows remain; moving a bookmark before itself changes nothing; moving it before another bookmark puts that bookmark exactly one order after it |
| Orders.MoveBeforeKeepsList | wtfapi/models/user.py:163-171 | moving a POI before another bookmark keeps the same POIs, leaves the moved POI exactly one order below `before`, and the new orders stand for the old list with the POI taken from its index and put back immediately before `before` (`MoveBeforeList`), so they stay dense |
| Orders.MoveToEndKeepsList | wtfapi/models/user.py:154-158 | popping a POI out and giving it order N removes it from its index and appends it |
| Orders.MoveBeforeSelfBreaksDensity | wtfapi/models/user.py:163-171 | with the lookups spelled as intended, moving a bookmark before itself leaves it at order 0 and the orders no longer dense |
| Orders.MoveBeforeExample | wtfapi/models/user.py:163-171 | on the list A, B, C, D, moving D before B gives A, D, B, C |
| SoftDelete.Visible | wtfapi/models/base.py:21 | a row is visible exactly when `deleted` is false and `deleted_by` is null |
| Queries.Filter | wtfapi/models/base.py:21 | a filter keeps only rows that pass, never invents a row, and keeps every row that passes |
| Queries.FilterIsSubsequence | wtfapi/models/base.py:21 | a filter keeps its rows in their original order |
| SoftDelete.Created | wtfapi/models/base.py:34-35 | a new row has `deleted` false and no `deleted_by`, so it is visible |
| SoftDelete.All | wtfapi/models/base.py:13-21 | every row returned is a row of the input with `deleted` false and `deleted_by` null; a row with `deleted_by` set is excluded even when `deleted` is false; every visible input row is kept |
| SoftDelete.AllKeepsOrder | wtfapi/models/base.py:21 | the visible rows keep the table's order |
| SoftDelete.AllIdempotent | wtfapi/models/base.py:13-21 | applying `all()` twice gives the same rows as applying it once |
| SoftDelete.AllOfFreshRows | wtfapi/models/base.py:21-35 | a table of rows created with the defaults is returned whole |
| Regions.CountryAllowedFor | wtfapi/models/regions.py:38-42 | a superuser gets the input unchanged; anyone else gets a subset of the input holding only rows they manage, and every row they manage |
| Regions.ProvinceAllowedFor | wtfapi/models/regions.py:63-64 | the result is a subset of the input provinces |
| Regions.ProvinceAllowedForMembership | wtfapi/models/regions.py:63-64 | a province is in scope iff the user manages it, or its country is in the country table and the user is a superuser or manages that country |
| Regions.DirectManagerAllowed | wtfapi/models/regions.py:64 | a province the user manages is in scope whoever manages its country |
| Regions.SuperuserAllowedEveryListedCountry | wtfapi/models/regions.py:38-64 | for a superuser, every province whose country is in the country table is in scope |
| Regions.ProvinceObjectsAllowedFor | wtfapi/models/regions.py:76 | `Province.objects.allowed_for` as wired applies the country rule to provinces: a superuser gets every province; anyone else gets a subset of the input holding only provinces they manage directly, and every one of those |
| Regions.WiredScopeDropsCountryManagers | wtfapi/models/regions.py:63-76 | a province managed by someone else whose country the user manages is in scope by the province rule, but not through `Province.objects` as wired |

## Left out

- `wtfapi/models/poi.py` (`within`, `annotate_distances`, `nearby_search`, `in_region`): these wrap GeoDjango distance and intersection queries over floating-point geometry. Region `boundaries` are not modelled either. `in_region` folds the boundaries with `reduce` and no initial value (wtfapi/models/poi.py:61-62), so it raises, rather than returning nothing, when no region has boundaries.
- `User.email_user` is mail I/O. `User.clean` calls Django's `normalize_email`. Neither is modelled. The username validator is a Unicode regex and is not modelled.
- Timestamps (`created_on`, `updated_on`) and verbose names are not modelled. Note that base.py uses `_` in its verbose names without importing it.
- The REST layer, admin, form widgets, deployment and task-queue code are not modelled: they parse requests and render responses.
- Concurrency is not modelled. The source takes no lock and opens no transaction around the steps of a bookmark operation, and each operation here runs as one sequential step.
- A database that checks the unique (user, order) constraint row by row during either bulk update, `update(order=F('order') - 1)` or `update(order=F('order') + 1)`, can reject it halfway. The model treats each bulk update as atomic.
- Accounts.User.BookmarkMove: for a move that passes the ownership checks only, requires that the caller's `bookmark` row carries the bookmark's current order and that a given `before` still exists. A call that is refused for ownership has no such requirement.
  - The source works with whatever the caller's in-memory row holds.
  - When `before` was deleted, the source raises `DoesNotExist` on the re-read.
  - Neither case is modelled.
- The IDs of rows are not modelled. A bookmark or rating is identified by its (user, POI) pair, which the unique constraints make a key. `bookmark.user != self` compares user ids.
- Regions.ProvinceAllowedFor: its own contract only states the subset property. The full scope rule is stated by `Regions.ProvinceAllowedForMembership`.
- The model's Country and Province carry no deletion columns. Django's manager-level queryset does not call the overridden `all()`, so neither `allowed_for` rule (nor its nested country query) filters out soft-deleted rows.

## Findings

| source | as written | input that shows it | evidently intended | confidence | as-written member | corrected member |
|---|---|---|---|---|---|---|
| wtfapi/models/user.py:127 | `filter(order_gt=order)` uses one underscore, which names no field of Bookmark, so Django raises FieldError after the row has already been deleted | bookmarks A (order 1), B (order 2); `unbookmark(A)` deletes A, then raises; B keeps order 2 with one bookmark left | `order__gt`: decrement every larger order | not executed | Accounts.UnbookmarkAsWritten, Accounts.UnbookmarkAsWrittenLeavesGap | Accounts.User.Unbookmark, Orders.RemoveKeepsList |
| wtfapi/models/user.py:148 | `_popout` uses the same `order_gt` lookup, after saving the moved row with order 0 | bookmarks A (1), B (2); `bookmark_move(B)` saves B with order 0, then raises | `order__gt` | not executed | Accounts.PopOutAsWritten, Accounts.MoveAsWrittenLeavesOrderZero | Accounts.User.BookmarkMove, Orders.PopOutKeepsList |
| wtfapi/models/user.py:163-171 | with the lookups spelled as intended, `before` may be `bookmark` itself: after the pop its re-read order is 0, the `>= 0` shift moves every row, and the save writes 0 back | bookmarks A (1), B (2); `bookmark_move(B, before=B)` gives A (2), B (0) | leave the list unchanged | not executed | Orders.MoveBeforeSteps, Orders.MoveBeforeSelfBreaksDensity | Orders.MoveBefore, Accounts.User.BookmarkMove |
| wtfapi/models/regions.py:76 | `Province.objects` is built from `CountryQuerySet`, so `Province.objects.allowed_for(user)` keeps only the provinces the user manages directly | a non-superuser manages country C; province P of C is managed by another user; P is not returned | `ProvinceQuerySet.as_manager()`: P is returned | not executed | Regions.ProvinceObjectsAllowedFor, Regions.WiredScopeDropsCountryManagers | Regions.ProvinceAllowedFor, Regions.ProvinceAllowedForMembership |
