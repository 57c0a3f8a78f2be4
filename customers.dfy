/**
 * The customer routes of application/blueprints/customers/routes.py. `/my-tickets` and `/me`
 * are wrapped by `token_required`: the gate runs first and the route sees the id it admits.
 */
module CustomerRoutes {
  import opened Basics
  import opened Numerals
  import opened Http
  import opened Records
  import opened Tables
  import opened Tokens
  import opened Database

  const DefaultLimit := 10
  const DefaultOffset := 0
  const MaxLimit := 100
  const BadCredentials := "Invalid email or password."

  /** `{"status": "success", "message": "Successfully Logged In", "auth_token": ...}` */
  datatype LoginReply = LoginReply(status: string, message: string, authToken: string)

  /** `{"limit": ..., "offset": ..., "count": ..., "customers": [...]}` */
  datatype CustomerPage = CustomerPage(limit: int, offset: int, count: int, customers: seq<Customer>)

  /**
   * `request.args.get(name, default=..., type=int)`: the default when the argument is absent
   * or `int` rejects it.
   */
  function QueryInt(arg: Option<string>, default: int): int
  {
    match arg
    case None => default
    case Some(s) =>
      match ParseInt(s)
      case Some(n) => n
      case None => default
  }

  /** A query argument written with `str(n)` reads back as n; a missing one gives the default. */
  lemma QueryIntReadsBack(n: int, default: int)
    ensures QueryInt(Some(ShowInt(n)), default) == n
    ensures QueryInt(None, default) == default
  {
    ParseShow(n);
  }

  /** What the client gets when `token_required` does not call the route. */
  function Denied<T>(g: Gate): Response<T>
    requires !g.Admit?
  {
    match g
    case Refuse(message) => Response(401, Message(message))
    case Fault => Response(500, ServerError)
  }

  /** The tickets of one customer, in listing order. */
  function OwnedBy(rows: seq<Ticket>, customerId: int): (r: seq<Ticket>)
    ensures forall t :: t in r <==> t in rows && t.customerId == customerId
    ensures forall t :: multiset(r)[t] == if t.customerId == customerId then multiset(rows)[t] else 0
    ensures |r| <= |rows|
  {
    if rows == [] then []
    else
      assert rows == [rows[0]] + rows[1..];
      var rest := OwnedBy(rows[1..], customerId);
      assert forall t :: t in rows <==> t == rows[0] || t in rows[1..];
      if rows[0].customerId == customerId then [rows[0]] + rest else rest
  }

  /** POST /customers/: a taken email is refused and nothing is inserted. */
  method CreateCustomer(db: Store, input: Loaded<CustomerInput>) returns (r: Response<Customer>)
    requires db.Valid()
    modifies db
    ensures db.Valid()
    ensures old(db.CustomerEmailsUnique()) ==> db.CustomerEmailsUnique()
    ensures input.Invalid? ==> r == Response(400, ValidationErrors(input.messages)) && unchanged(db)
    ensures input.Loaded? && (exists k :: k in old(db.customers) && old(db.customers)[k].email == input.data.email) ==>
              r == Response(400, Error("Email already associated with an account.")) && unchanged(db)
    ensures input.Loaded? && (forall k :: k in old(db.customers) ==> old(db.customers)[k].email != input.data.email) ==>
              && r.status == 201 && r.body.Data?
              && var d, c := input.data, r.body.value;
              && c.id !in old(db.customers)
              && c == Customer(c.id, d.name, d.email, GetOrNone(d.phone), HashPassword(d.password))
              && db.customers == old(db.customers)[c.id := c]
              && db.mechanics == old(db.mechanics) && db.parts == old(db.parts)
              && db.tickets == old(db.tickets)
  {
    if input.Invalid? {
      return Response(400, ValidationErrors(input.messages));
    }
    var data := input.data;
    var existing := db.CustomerWithEmail(data.email);
    if existing.Some? {
      return Response(400, Error("Email already associated with an account."));
    }
    var c := db.AddCustomer(data.name, data.email, GetOrNone(data.phone), HashPassword(data.password));
    return Response(201, Data(c));
  }

  /**
   * POST /customers/login: a token for the customer with that email when the password checks;
   * one 401 for an unknown email and for a wrong password alike. `sign` stands for HS256 signing
   * with the secret key, `expClock` and `iatClock` for the two clock readings.
   */
  method Login(db: Store, input: Loaded<LoginInput>, sign: Claims -> string, expClock: int, iatClock: int)
    returns (r: Response<LoginReply>)
    requires db.Valid()
    ensures input.Invalid? ==> r == Response(400, ValidationErrors(input.messages))
    ensures input.Loaded? ==> r.status == 200 || r == Response(401, Message(BadCredentials))
    ensures input.Loaded? && r.status == 200 ==>
              exists k :: k in db.customers && db.customers[k].email == input.data.email
                && CheckPassword(db.customers[k].credential, input.data.password)
                && r == Response(200, Data(LoginReply("success", "Successfully Logged In",
                                                      sign(EncodeToken(k, expClock, iatClock)))))
    ensures input.Loaded? && db.CustomerEmailsUnique() ==>
              (r.status == 200 <==>
                 exists k :: k in db.customers && db.customers[k].email == input.data.email
                   && CheckPassword(db.customers[k].credential, input.data.password))
  {
    if input.Invalid? {
      return Response(400, ValidationErrors(input.messages));
    }
    var email, password := input.data.email, input.data.password;
    var found := db.CustomerWithEmail(email);
    if found.Some? && CheckPassword(found.value.credential, password) {
      var c := found.value;
      assert c.id in db.customers && db.customers[c.id] == c;
      var token := sign(EncodeToken(c.id, expClock, iatClock));
      return Response(200, Data(LoginReply("success", "Successfully Logged In", token)));
    }
    if db.CustomerEmailsUnique() && found.Some? {
      var c := found.value;
      assert c.id in db.customers && db.customers[c.id] == c;
      forall k | k in db.customers && db.customers[k].email == email
        ensures !CheckPassword(db.customers[k].credential, password)
      {
        assert k == c.id;
      }
    }
    return Response(401, Message(BadCredentials));
  }

  /** GET /customers/my-tickets: exactly the tickets whose owner is the token's customer. */
  method GetMyTickets(db: Store, header: Option<string>, decode: string -> Decoded)
    returns (r: Response<seq<Ticket>>)
    ensures !Guard(header, decode).Admit? ==> r == Denied(Guard(header, decode))
    ensures Guard(header, decode).Admit? ==>
              && r.status == 200 && r.body.Data?
              && (forall t :: t in r.body.value <==>
                    t in db.tickets.Values && t.customerId == Guard(header, decode).customerId)
              && (forall t :: multiset(r.body.value)[t] ==
                    if t.customerId == Guard(header, decode).customerId then multiset(Rows(db.tickets))[t] else 0)
  {
    var gate := Guard(header, decode);
    if !gate.Admit? {
      return Denied(gate);
    }
    RowsListTable(db.tickets);
    return Response(200, Data(OwnedBy(Rows(db.tickets), gate.customerId)));
  }

  /**
   * GET /customers/: limit defaults to 10 and offset to 0; limit < 1, then limit > 100, then
   * offset < 0 are refused; otherwise one LIMIT/OFFSET window of the customers.
   */
  method GetCustomers(db: Store, limitArg: Option<string>, offsetArg: Option<string>)
    returns (r: Response<CustomerPage>)
    ensures var limit, offset := QueryInt(limitArg, DefaultLimit), QueryInt(offsetArg, DefaultOffset);
      && (limit < 1 ==> r == Response(400, Error("Limit must be at least 1.")))
      && (1 <= limit && limit > MaxLimit ==> r == Response(400, Error("Limit cannot be greater than 100.")))
      && (1 <= limit <= MaxLimit && offset < 0 ==> r == Response(400, Error("Offset cannot be negative.")))
      && (1 <= limit <= MaxLimit && 0 <= offset ==>
            && r.status == 200 && r.body.Data?
            && var page := r.body.value;
            && page.limit == limit && page.offset == offset
            && page.count == |page.customers| <= limit
            && page.customers == Page(Rows(db.customers), offset, limit))
  {
    var limit := QueryInt(limitArg, DefaultLimit);
    var offset := QueryInt(offsetArg, DefaultOffset);
    if limit < 1 {
      return Response(400, Error("Limit must be at least 1."));
    }
    if limit > MaxLimit {
      return Response(400, Error("Limit cannot be greater than 100."));
    }
    if offset < 0 {
      return Response(400, Error("Offset cannot be negative."));
    }
    var customers := Page(Rows(db.customers), offset, limit);
    return Response(200, Data(CustomerPage(limit, offset, |customers|, customers)));
  }

  /** GET /customers/<id> */
  method GetCustomer(db: Store, customerId: nat) returns (r: Response<Customer>)
    ensures customerId in db.customers ==> r == Response(200, Data(db.customers[customerId]))
    ensures customerId !in db.customers ==> r == NotFound("Customer")
  {
    if customerId !in db.customers {
      return NotFound("Customer");
    }
    return Response(200, Data(db.customers[customerId]));
  }

  /**
   * PUT /customers/me: the customer must exist (404) before the body is loaded (400); then
   * name, email and phone are set, and the password only when a non-empty one is given.
   * The email is not checked against the other customers.
   */
  method UpdateMe(db: Store, header: Option<string>, decode: string -> Decoded, input: Loaded<CustomerInput>)
    returns (r: Response<Customer>)
    requires db.Valid()
    modifies db
    ensures db.Valid()
    ensures var g := Guard(header, decode);
      && (!g.Admit? ==> r == Denied(g) && unchanged(db))
      && (g.Admit? && g.customerId !in old(db.customers) ==> r == NotFound("Customer") && unchanged(db))
      && (g.Admit? && g.customerId in old(db.customers) && input.Invalid? ==>
            r == Response(400, ValidationErrors(input.messages)) && unchanged(db))
      && (g.Admit? && g.customerId in old(db.customers) && input.Loaded? ==>
            && var id, d, before := g.customerId, input.data, old(db.customers)[g.customerId];
            && var after := before.(name := d.name, email := d.email, phone := GetOrNone(d.phone),
                                    credential := if d.password != [] then HashPassword(d.password)
                                                  else before.credential);
            && db.customers == old(db.customers)[id := after]
            && r == Response(200, Data(after))
            && db.mechanics == old(db.mechanics) && db.parts == old(db.parts)
            && db.tickets == old(db.tickets)
            && (old(db.CustomerEmailsUnique()) ==>
                  (db.CustomerEmailsUnique() <==>
                     forall k :: k in old(db.customers) && k != id ==> old(db.customers)[k].email != d.email)))
  {
    var gate := Guard(header, decode);
    if !gate.Admit? {
      return Denied(gate);
    }
    var id := gate.customerId;
    if id !in db.customers {
      return NotFound("Customer");
    }
    if input.Invalid? {
      return Response(400, ValidationErrors(input.messages));
    }
    var data := input.data;
    var c := db.customers[id];
    c := c.(name := data.name);
    c := c.(email := data.email);
    c := c.(phone := GetOrNone(data.phone));
    if data.password != [] {
      c := c.(credential := HashPassword(data.password));
    }
    if db.CustomerEmailsUnique() {
      ReplaceKeepsUnique(db.customers, (c: Customer) => c.email, id, c);
    }
    db.customers := db.customers[id := c];
    return Response(200, Data(c));
  }

  /** DELETE /customers/me: that customer goes, no other row changes. */
  method DeleteMe(db: Store, header: Option<string>, decode: string -> Decoded) returns (r: Response<()>)
    requires db.Valid()
    modifies db
    ensures db.Valid()
    ensures var g := Guard(header, decode);
      && (!g.Admit? ==> r == Denied(g) && unchanged(db))
      && (g.Admit? && g.customerId !in old(db.customers) ==> r == NotFound("Customer") && unchanged(db))
      && (g.Admit? && g.customerId in old(db.customers) ==>
            && r == Response(200, Message("Customer: " + ShowInt(g.customerId) + " deleted successfully."))
            && db.customers == old(db.customers) - {g.customerId}
            && db.mechanics == old(db.mechanics) && db.parts == old(db.parts)
            && db.tickets == old(db.tickets))
  {
    var gate := Guard(header, decode);
    if !gate.Admit? {
      return Denied(gate);
    }
    var id := gate.customerId;
    if id !in db.customers {
      return NotFound("Customer");
    }
    db.RemoveCustomer(id);
    return Response(200, Message("Customer: " + ShowInt(id) + " deleted successfully."));
  }
}
