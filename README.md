# Delivery request order table

This project models the "new orders" request (`DeliveryRequest`) of a PHP client library for a parcel-delivery provider's XML-over-HTTP API. A delivery request has an optional request number and a table of orders keyed by order number. `addOrder` stores an order under its number and returns the request, so calls can be chained. A second order with the same number replaces the first. The request reports the size of the table as its `OrderCount` attribute. `getNumber` returns the request number as a string, and an unset number reads as `""`. The request is sent with method `"POST"` to `"/new_orders.php"`; these are the constants `RequestMethod` and `RequestAddress`.

Everything is in `delivery_request.dfy`, in module `DeliveryRequests`:

- `Order` is a class. The table stores references to orders, so the entry for a number is the very object that was added, not a copy. Only the order's number is modelled.
- `DeliveryRequest` is a class. Its fields `Number` and `orders` are the source's fields. The ghost field `added` records every order passed to `AddOrder`, in call order. `Valid()` ties the table to `AddedAll(map[], added)`, which folds `Insert` over that history.
- Lemmas about `AddedAll` give the meaning of the table after any sequence of additions: which keys it has, what each key maps to, and how its size relates to the number of orders added.

## Model

| member | source | states |
|---|---|---|
| `DeliveryRequests.Insert` | src/Requests/DeliveryRequest.php:82 | Storing an order under its number maps that number to exactly that order. Every other entry is kept. The key set gains the number. The size grows by one when the number is new and stays the same when it replaces an existing entry. |
| `DeliveryRequests.DeliveryRequest.constructor` | src/Requests/DeliveryRequest.php:67 | A new request has the given number (`None` when unset), an empty order table and no orders added. The table invariant holds. |
| `DeliveryRequests.DeliveryRequest.AddOrder` | src/Requests/DeliveryRequest.php:80-85 | After adding `o`, the table maps `o`'s number to `o`. Entries under other numbers are unchanged, and `Number` is unchanged. The count grows by one exactly when the number was new and is unchanged otherwise. The method returns the same request object, which allows fluent chaining. The table invariant is preserved. |
| `DeliveryRequests.DeliveryRequest.OrderCount` | src/Requests/DeliveryRequest.php:75-78 | The count is the number of distinct order numbers added so far. It is at most the number of `addOrder` calls, and equal to it exactly when no number was added twice. |
| `DeliveryRequests.DeliveryRequest.GetNumber` | src/Requests/DeliveryRequest.php:87-90 | Returns `""` when the request number was never set, and otherwise the number unchanged. As a function, it has no side effects. |
| `DeliveryRequests.AddedAllKeys` | src/Requests/DeliveryRequest.php:80-85 | After a sequence of `addOrder` calls, the table's keys are the previous keys plus the numbers of the added orders. |
| `DeliveryRequests.AddedAllLookup` | src/Requests/DeliveryRequest.php:80-85 | After a sequence of `addOrder` calls, a number is a key exactly when it was a key before or some added order carries it. It maps to the last added order carrying it, and keeps its previous entry when no added order carries it. |
| `DeliveryRequests.CountAtMostAdded` | src/Requests/DeliveryRequest.php:75-85 | The order count never exceeds the number of orders added. |
| `DeliveryRequests.CountEqualsAddedIffDistinct` | src/Requests/DeliveryRequest.php:75-85 | The order count equals the number of orders added exactly when their numbers are pairwise distinct. |

## Left out

- The XML mapping of the request (the serializer annotations on the class, on `Number` and on the `OrderCount` virtual property) is done by an external serializer library. Only the values it reads are modelled: `GetNumber` and `OrderCount`.
- The `Authorized`, `Fillable`, `OrdersAware` and `RequestCore` traits and the `DeliveryResponse` type are not part of this model. They cover authentication, filling fields from arrays, and HTTP transport. The constructor assumes the `orders` table declared in `OrdersAware` starts out empty.
- `Order` is not part of this model apart from its number. The model assumes the number is a string and does not change after the order is created. The table key is taken when the order is added, as in the source.
- `GetNumber` models the request number as either unset or a string. PHP's `(string)` cast of other scalar values, such as integers or booleans, is not modelled.
- PHP array-key quirks are not modelled. A canonical numeric string such as `"7"` becomes an integer key. That conversion is injective on strings, so it does not change which numbers collide or the count. The insertion order of iteration is also not modelled; the code relies only on key uniqueness.
- The lenient nullable date/time deserialisation handler and the status-report deserialisation are not part of this model. Their source is not part of this model, and their behaviour rests on PHP's `DateTime` format parsing and on the external XML serializer.
