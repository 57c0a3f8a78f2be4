# Mechanic shop API: a Dafny model of its route handlers

The repository is a Flask API for a car-repair shop. It keeps four tables:
- customers, whose emails are unique;
- mechanics, whose emails are unique;
- inventory parts, whose names are unique;
- service tickets. Each ticket belongs to one customer and links mechanics and parts through
  two association tables.

Its blueprints expose CRUD routes over these tables. A bearer-token gate (`token_required`)
guards the customer's own routes `/customers/my-tickets` and `/customers/me`.

This project models that core:
- `database.dfy`: the database as the routes see it. `Database.Store` is a class holding the
  four tables as maps keyed by id, with autoincrement counters and one method per session
  change.
- `tickets.dfy`, `customers.dfy`, `mechanics.dfy`, `inventory.dfy`: each route handler is a
  method over a `Store`. It returns a status code and a body (a payload, an error, a message,
  or the validation errors), and its `ensures` states the new state of the store in every
  branch.
- `tokens.dfy`: `encode_token` and the `token_required` wrapper as pure functions. The wrapper
  covers the header check of section 2.1 of RFC 6750, the token split, the classification of
  the decode outcome, and the conversion of `sub` to an int (sections 4.1.2, 4.1.4 and 4.1.6 of
  RFC 7519). The HS256 signature is not modelled: signing and verifying are function
  parameters.
- `numerals.dfy`: Python's `str(n)` and `int(s)` on integers, with their round trip.
- `tables.dfy`: listing order, the LIMIT/OFFSET window, and the list operations on a ticket's
  linked mechanic ids.

Each route answers in a fixed order: 404 for the row the path names, then 400 for a body that
does not load, then the route's own checks (such as the customer lookup of `create_ticket`,
which comes after its 400). Every contract states which error wins and that nothing
changes on an error.

The store invariant `Store.Valid()` holds across every route. It says:
- every row sits under its own id;
- every id is below its counter;
- every ticket links only existing mechanics and parts, each at most once, as the composite
  primary keys of the association tables require.

The unique constraints are separate predicates: `CustomerEmailsUnique`,
`MechanicEmailsUnique` and `PartNamesUnique`. The create routes preserve them. The update
routes do not re-check them, so their contracts state exactly when uniqueness survives.

Outside effects are parameters:
- the request's body arrives already loaded (`Loaded`) or rejected (`Invalid`);
- the Authorization header is an `Option<string>`;
- the clock readings are integers;
- `jwt.encode` and `jwt.decode` are the function parameters `sign` and `decode`.

## Model

| member | source | states |
|---|---|---|
| Numerals.ShowNat | application/utils/util.py:22 | `str` of a non-negative int is a non-empty run of ASCII digits without a leading zero |
| Numerals.ShowNatValue | application/utils/util.py:22 | reading the digits of `str(n)` back gives n |
| Numerals.ParseShow | application/utils/util.py:22-52 | `int(str(n)) == n` for every integer, negative ones included |
| Numerals.ShowIntInjective | application/utils/util.py:22-52 | distinct ids print as distinct `sub` strings |
| Tokens.EncodeToken | application/utils/util.py:12-23 | `exp` is one hour after its clock reading, `iat` is its own clock reading, and `sub` is a string that `int` reads back as the customer id |
| Tokens.Split | application/utils/util.py:45 | `split(" ")` yields at least one field, and no field holds a space |
| Tokens.JoinSplit | application/utils/util.py:45 | joining the fields of `split(" ")` with single spaces rebuilds the header |
| Tokens.SplitHead | application/utils/util.py:45 | the first field of a split is the text before the first space |
| Tokens.SplitAfterWord | application/utils/util.py:45 | splitting `w + " " + rest` puts the space-free word w first, then the fields of rest |
| Tokens.FirstFieldOfWord | application/utils/util.py:45 | a space-free token is its own first field |
| Tokens.BearerToken | application/utils/util.py:45 | field 1 of a header that starts with "Bearer " is the text after the prefix, up to the next space |
| Tokens.GuardRejectsMalformed | application/utils/util.py:40-43 | a missing header, or one without the case-sensitive "Bearer " prefix, is refused with "Authorization header missing or malformed." whatever the decoder would say |
| Tokens.GuardClassifies | application/utils/util.py:45-60 | after the prefix check: expired iff refused with "Token has expired."; rejected iff refused with "Invalid token."; admitted iff verified with a `sub` that `int` accepts, and then the admitted id is `int(sub)` |
| Tokens.EmptyBearerToken | application/utils/util.py:45 | "Bearer " alone gives the empty token |
| Tokens.IssuedTokenAdmitted | application/utils/util.py:12-60 | a token issued for a customer and accepted by the decoder admits exactly that customer id |
| Tables.Ascending | application/blueprints/tickets/routes.py:30 | the ids of a table, strictly increasing, each exactly once |
| Tables.Rows | application/blueprints/tickets/routes.py:30 | a listing has one row per stored id |
| Tables.RowsListTable | application/blueprints/tickets/routes.py:30-31 | a listing holds every stored row and nothing else |
| Tables.Page | application/blueprints/customers/routes.py:106-107 | a LIMIT/OFFSET window: at most `limit` rows; its exact length; row i is listed row `offset + i` |
| Tables.FirstIndex | application/blueprints/tickets/routes.py:105 | the position where x first occurs: it holds x and nothing before it does |
| Tables.RemoveFirst | application/blueprints/tickets/routes.py:105 | `list.remove(x)` for a present x: exactly the first occurrence of x goes: the elements before it stay in place, the ones after it move up by one, and the multiset loses one x. For an absent x, where `list.remove` would raise ValueError and the route never calls it (lines 102-103 answer 400 first), the model returns the list unchanged |
| Tables.Without | application/blueprints/mechanics/routes.py:62-63 | the list without x: every occurrence of x gone and every other element kept with its multiplicity |
| Tables.WithoutAppend | application/blueprints/mechanics/routes.py:62-63 | scrubbing a concatenation scrubs each part, so the elements that stay keep their order |
| Tables.AppendIfAbsentIdempotent | application/blueprints/tickets/routes.py:83-89 | assigning the same mechanic twice leaves the list as assigning it once |
| Tables.AppendIfAbsentNoDup | application/blueprints/tickets/routes.py:83-89 | an assign keeps a duplicate-free list duplicate-free, adds x and loses nothing |
| Tables.RemoveFirstNoDup | application/blueprints/tickets/routes.py:102-105 | on a duplicate-free list, removing the first occurrence removes every occurrence, and the result stays duplicate-free |
| Tables.RemoveUndoesAssign | application/blueprints/tickets/routes.py:83-105 | removing a mechanic just assigned to a list that lacked it restores the list |
| Tables.WithoutNoDup | application/blueprints/mechanics/routes.py:62-63 | scrubbing an id keeps a list duplicate-free |
| Database.ReplaceKeepsUnique | application/blueprints/customers/routes.py:139-146 | overwriting a row of a table with a unique key keeps the key unique iff no other row has the new key |
| Database.ScrubMechanicKeepsLinks | application/blueprints/mechanics/routes.py:62-63 | a ticket whose list loses a deleted mechanic's id still links only remaining mechanics and parts, each once |
| Database.ScrubPartKeepsLinks | application/blueprints/inventory/routes.py:97-98 | a ticket whose list loses a deleted part's id still links only remaining mechanics and parts, each once |
| Database.FirstWithKey | application/blueprints/customers/routes.py:21-22 | `.first()` of a filtered select: a hit is a listed row with that key; a miss iff no row has it |
| Database.Store.constructor | application/models/service_ticket.py:9-39 | an empty database satisfies the store invariant |
| Database.Store.CustomerWithEmail | application/blueprints/customers/routes.py:21-22 | finds a stored customer with that email; none iff no customer has it |
| Database.Store.MechanicWithEmail | application/blueprints/mechanics/routes.py:17-18 | finds a stored mechanic with that email; none iff no mechanic has it |
| Database.Store.PartWithName | application/blueprints/inventory/routes.py:26-28 | finds a stored part with that name; none iff no part has it |
| Database.Store.AddCustomer | application/blueprints/customers/routes.py:27-38 | the new customer gets an unused id; only the customers table grows; the invariant is kept |
| Database.Store.AddMechanic | application/blueprints/mechanics/routes.py:22-24 | the new mechanic gets an unused id; only the mechanics table grows |
| Database.Store.AddPart | application/blueprints/inventory/routes.py:33-35 | the new part gets an unused id; only the inventory table grows |
| Database.Store.AddTicket | application/blueprints/tickets/routes.py:23-25 | the new ticket gets an unused id and links no mechanics and no parts |
| Database.Store.SetMechanics | application/blueprints/tickets/routes.py:86-87 | replaces one ticket's mechanic list with a duplicate-free list of existing mechanics; nothing else changes |
| Database.Store.RemoveCustomer | application/blueprints/customers/routes.py:157-158 | exactly that customer is gone |
| Database.Store.RemoveTicket | application/blueprints/tickets/routes.py:67-68 | exactly that ticket is gone |
| Database.Store.RemoveMechanic | application/blueprints/mechanics/routes.py:62-63 | the mechanic is gone, and so are its links: it leaves every ticket's list, the rest kept |
| Database.Store.RemovePart | application/blueprints/inventory/routes.py:97-98 | the part is gone, and so are its links: it leaves every ticket's list, the rest kept |
| TicketRoutes.SetAttrs | application/blueprints/tickets/routes.py:55-56 | `setattr` over loaded items never touches the id or the linked mechanics and parts |
| TicketRoutes.SetAttrsOverwrites | application/blueprints/tickets/routes.py:55-56 | applying a loaded body sets exactly VIN, service_date, service_desc and customer_id |
| TicketRoutes.CreateTicket | application/blueprints/tickets/routes.py:12-26 | 400 on a bad body; 404 "Customer not found." and no insert for an unknown customer; else 201 with a ticket holding exactly the submitted fields and no mechanics |
| TicketRoutes.ListTickets | application/blueprints/tickets/routes.py:28-31 | 200 with every stored ticket and nothing else |
| TicketRoutes.GetTicket | application/blueprints/tickets/routes.py:33-38 | 200 with the ticket, or 404 "Ticket not found." |
| TicketRoutes.UpdateTicket | application/blueprints/tickets/routes.py:40-59 | 404 ticket, then 400 body, then 404 customer, each with no change; else the four loaded fields are overwritten and the mechanic list is kept |
| TicketRoutes.DeleteTicket | application/blueprints/tickets/routes.py:61-69 | 404 with no change, or exactly that ticket removed and "Ticket: {id} deleted successfully." |
| TicketRoutes.AssignMechanic | application/blueprints/tickets/routes.py:73-89 | 404 ticket before 404 mechanic; an already linked mechanic gives 200 "Mechanic already assigned." with no change; else the mechanic is appended once |
| TicketRoutes.RemoveMechanic | application/blueprints/tickets/routes.py:92-112 | 404 ticket before 404 mechanic; 400 "Mechanic not assigned to this ticket." with no change; else the list loses that mechanic, keeps the order of the others, and `remaining_mechanic_ids` is the new list |
| CustomerRoutes.QueryIntReadsBack | application/blueprints/customers/routes.py:94-95 | a query argument is read as its integer, and a missing one gives the default |
| CustomerRoutes.OwnedBy | application/blueprints/customers/routes.py:75-76 | the filtered tickets are exactly those whose customer_id matches, each as often as it occurs in the listing |
| CustomerRoutes.CreateCustomer | application/blueprints/customers/routes.py:14-40 | 400 on a bad body; 400 "Email already associated with an account." and no insert for a taken email; else 201 with the submitted fields and hashed password; email uniqueness is kept |
| CustomerRoutes.Login | application/blueprints/customers/routes.py:42-64 | 200 only for a stored customer with that email whose password checks, with a token signed over that customer's claims; otherwise the one 401 "Invalid email or password."; with unique emails, 200 iff such a customer exists |
| CustomerRoutes.GetMyTickets | application/blueprints/customers/routes.py:66-80 | a refused gate gives its 401 (or 500); otherwise exactly the tickets whose customer_id is the admitted id, each as often as the table lists it |
| CustomerRoutes.GetCustomers | application/blueprints/customers/routes.py:82-114 | defaults 10 and 0; limit < 1, then limit > 100, then offset < 0 give their 400; else the window of `limit` customers after `offset`, with count equal to its length and limit/offset echoed |
| CustomerRoutes.GetCustomer | application/blueprints/customers/routes.py:117-124 | 200 with the customer, or 404 "Customer not found." |
| CustomerRoutes.UpdateMe | application/blueprints/customers/routes.py:126-147 | gate, then 404, then 400, each with no change; else name, email and phone (absent when not given) are set and the password only when non-empty; uniqueness survives iff no other customer had the email |
| CustomerRoutes.DeleteMe | application/blueprints/customers/routes.py:149-160 | gate, then 404 with no change; else exactly that customer removed and "Customer: {id} deleted successfully." |
| MechanicRoutes.SetAttrs | application/blueprints/mechanics/routes.py:50-51 | `setattr` over loaded items never touches the id |
| MechanicRoutes.SetAttrsOverwrites | application/blueprints/mechanics/routes.py:50-51 | applying a loaded body sets name, email and salary, and phone only when the body has it |
| MechanicRoutes.CreateMechanic | application/blueprints/mechanics/routes.py:10-25 | 400 on a bad body; 400 "Email already associated with an account." and no insert for a taken email; else 201 with the submitted fields; email uniqueness is kept |
| MechanicRoutes.ListMechanics | application/blueprints/mechanics/routes.py:27-30 | 200 with every stored mechanic and nothing else |
| MechanicRoutes.GetMechanic | application/blueprints/mechanics/routes.py:32-37 | 200 with the mechanic, or 404 "Mechanic not found." |
| MechanicRoutes.UpdateMechanic | application/blueprints/mechanics/routes.py:39-54 | 404 before 400, each with no change; else every loaded field is overwritten; uniqueness survives iff no other mechanic had the email |
| MechanicRoutes.DeleteMechanic | application/blueprints/mechanics/routes.py:56-64 | 404 with no change; else the mechanic and its ticket links are gone, with 200 "Mechanic: {id} deleted successfully." |
| InventoryRoutes.CreatePart | application/blueprints/inventory/routes.py:13-37 | 400 on a bad body; 400 "Part name already exists." and no insert for a taken name; else 201 with the submitted name and price; name uniqueness is kept |
| InventoryRoutes.ListParts | application/blueprints/inventory/routes.py:39-46 | 200 with every stored part and nothing else |
| InventoryRoutes.GetPart | application/blueprints/inventory/routes.py:48-59 | 200 with the part, or 404 "Part not found." |
| InventoryRoutes.UpdatePart | application/blueprints/inventory/routes.py:61-83 | 404 before 400, each with no change; else exactly name and price are set; uniqueness survives iff no other part had the name |
| InventoryRoutes.DeletePart | application/blueprints/inventory/routes.py:85-100 | 404 with no change; else the part and its ticket links are gone, with 200 "Part deleted successfully." |

## Left out

- The HS256 signature (section 3.2 of RFC 7518) and the secret key: `jwt.encode` and `jwt.decode` are the parameters `sign` and `decode`. Which tokens decode as expired is the decoder's business.
- Password hashing: `set_password` and `check_password` are not defined in application/models/customer.py. `HashPassword` keeps the password and `CheckPassword` compares it, which is enough for the property that a hash checks against its own password.
- Marshmallow validation: a body arrives as `Loaded(data)` or `Invalid(messages)`. Email format, required fields and field types are not modelled, and neither is a client-supplied `id` that an auto-schema would load.
- SQLAlchemy sessions, transactions and commits. A route's change is applied at once.
- The database's unique constraints when an update collides with them: the IntegrityError (a 500) is not modelled. The update routes instead state when uniqueness survives.
- CustomerRoutes.DeleteMe: tickets of the deleted customer are left as they are. The ORM would null their non-nullable `customer_id` at commit and fail, which is not modelled.
- Tables.RemoveFirst: the ValueError that `list.remove` raises for an absent element is not modelled; the route answers 400 before it could happen (application/blueprints/tickets/routes.py:102-103).
- Tables.Rows: rows are listed in ascending id order. The selects have no ORDER BY, so the database promises no order.
- Prices and salaries are floats in the source and `real` here; no arithmetic is done on them. `service_date` is a plain string.
- Numerals.ParseInt: Python's `int` also accepts surrounding whitespace, underscores between digits and non-ASCII digits. Only an optional sign followed by ASCII digits is modelled.
- Tokens.Guard: a `sub` claim that is not a string (a JSON number) is not modelled. Claims carry `sub` as an optional string.
- The clock: the two `datetime.now()` readings are integer seconds passed in.
- Rate limiting, caching, Swagger documentation, app and config wiring, blueprint registration and the Alembic migration.
- Behaviour that only the tests assert has no counterpart in the routes, so it is not modelled. This covers ticket ownership checks (401/403), `/edit`, `/add-part`, `/mechanics/most-tickets` and a 204 on mechanic delete. The routes' own behaviour is modelled instead, for example 200 on mechanic delete and a `customer_id` taken from the request body.
