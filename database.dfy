/**
 * The shop's database as the routes see it through `db.session`: four tables keyed by
 * autoincrement primary keys, and the two ticket association tables held as each ticket's
 * ordered lists of linked ids. Composite primary keys on the association tables mean a
 * ticket links a mechanic or a part at most once.
 */
module Database {
  import opened Basics
  import opened Records
  import opened Tables

  /** A ticket's links name existing rows, each at most once. */
  ghost predicate LinksValid(t: Ticket, mechanics: map<int, Mechanic>, parts: map<int, Part>)
  {
    && NoDup(t.mechanics)
    && NoDup(t.parts)
    && (forall m :: m in t.mechanics ==> m in mechanics)
    && (forall p :: p in t.parts ==> p in parts)
  }

  /** A ticket with a deleted mechanic's id scrubbed still links only what remains. */
  lemma ScrubMechanicKeepsLinks(t: Ticket, mechanics: map<int, Mechanic>, parts: map<int, Part>, id: int)
    requires LinksValid(t, mechanics, parts)
    ensures LinksValid(t.(mechanics := Without(t.mechanics, id)), mechanics - {id}, parts)
  {
    WithoutNoDup(t.mechanics, id);
  }

  /** A ticket with a deleted part's id scrubbed still links only what remains. */
  lemma ScrubPartKeepsLinks(t: Ticket, mechanics: map<int, Mechanic>, parts: map<int, Part>, id: int)
    requires LinksValid(t, mechanics, parts)
    ensures LinksValid(t.(parts := Without(t.parts, id)), mechanics, parts - {id})
  {
    WithoutNoDup(t.parts, id);
  }

  /** No two rows of the table share a key: a unique constraint. */
  ghost predicate KeysUnique<T>(table: map<int, T>, key: T -> string)
  {
    forall a, b :: a in table && b in table && a != b ==> key(table[a]) != key(table[b])
  }

  /**
   * Overwriting one row of a table whose key is unique keeps it unique exactly when no other
   * row already has the new row's key.
   */
  lemma ReplaceKeepsUnique<T>(table: map<int, T>, key: T -> string, id: int, row: T)
    requires id in table && KeysUnique(table, key)
    ensures KeysUnique(table[id := row], key) <==>
            forall k :: k in table && k != id ==> key(table[k]) != key(row)
  {
    var updated := table[id := row];
    if forall k :: k in table && k != id ==> key(table[k]) != key(row) {
      forall a, b | a in updated && b in updated && a != b
        ensures key(updated[a]) != key(updated[b])
      {
        if a == id {
          assert key(updated[b]) == key(table[b]);
        } else if b == id {
          assert key(updated[a]) == key(table[a]);
        }
      }
    } else {
      var k :| k in table && k != id && key(table[k]) == key(row);
      assert updated[k] == table[k] && updated[id] == row;
    }
  }

  /** The first row, in listing order, whose key is `value`: `select ... where ... .first()`. */
  function FirstWithKey<T>(rows: seq<T>, key: T -> string, value: string): (r: Option<T>)
    ensures r.Some? ==> r.value in rows && key(r.value) == value
    ensures r.None? <==> forall x :: x in rows ==> key(x) != value
  {
    if rows == [] then None
    else if key(rows[0]) == value then Some(rows[0])
    else
      var rest := FirstWithKey(rows[1..], key, value);
      assert forall x :: x in rows ==> x == rows[0] || x in rows[1..];
      rest
  }

  class Store {
    var customers: map<int, Customer>
    var mechanics: map<int, Mechanic>
    var parts: map<int, Part>
    var tickets: map<int, Ticket>
    /** The next value of each table's autoincrement counter. */
    var nextCustomerId: int
    var nextMechanicId: int
    var nextPartId: int
    var nextTicketId: int

    ghost predicate Valid()
      reads this
    {
      && 1 <= nextCustomerId && 1 <= nextMechanicId && 1 <= nextPartId && 1 <= nextTicketId
      && (forall k :: k in customers ==> customers[k].id == k && 1 <= k < nextCustomerId)
      && (forall k :: k in mechanics ==> mechanics[k].id == k && 1 <= k < nextMechanicId)
      && (forall k :: k in parts ==> parts[k].id == k && 1 <= k < nextPartId)
      && (forall k :: k in tickets ==> tickets[k].id == k && 1 <= k < nextTicketId)
      && (forall k :: k in tickets ==> LinksValid(tickets[k], mechanics, parts))
    }

    /** The unique constraint on customers.email. */
    ghost predicate CustomerEmailsUnique()
      reads this
    {
      KeysUnique(customers, (c: Customer) => c.email)
    }

    /** The unique constraint on mechanics.email. */
    ghost predicate MechanicEmailsUnique()
      reads this
    {
      KeysUnique(mechanics, (m: Mechanic) => m.email)
    }

    /** The unique constraint on inventory.name. */
    ghost predicate PartNamesUnique()
      reads this
    {
      KeysUnique(parts, (p: Part) => p.name)
    }

    constructor ()
      ensures Valid()
      ensures customers == map[] && mechanics == map[] && parts == map[] && tickets == map[]
    {
      customers, mechanics, parts, tickets := map[], map[], map[], map[];
      nextCustomerId, nextMechanicId, nextPartId, nextTicketId := 1, 1, 1, 1;
    }

    /** `select(Customer).where(Customer.email == email)` ... `.first()` */
    function CustomerWithEmail(email: string): (r: Option<Customer>)
      reads this
      ensures r.Some? ==> r.value in customers.Values && r.value.email == email
      ensures r.None? <==> forall k :: k in customers ==> customers[k].email != email
    {
      RowsListTable(customers);
      FirstWithKey(Rows(customers), (c: Customer) => c.email, email)
    }

    /** `select(Mechanic).where(Mechanic.email == email)` ... `.first()` */
    function MechanicWithEmail(email: string): (r: Option<Mechanic>)
      reads this
      ensures r.Some? ==> r.value in mechanics.Values && r.value.email == email
      ensures r.None? <==> forall k :: k in mechanics ==> mechanics[k].email != email
    {
      RowsListTable(mechanics);
      FirstWithKey(Rows(mechanics), (m: Mechanic) => m.email, email)
    }

    /** `select(Inventory).where(Inventory.name == name)` ... `.first()` */
    function PartWithName(name: string): (r: Option<Part>)
      reads this
      ensures r.Some? ==> r.value in parts.Values && r.value.name == name
      ensures r.None? <==> forall k :: k in parts ==> parts[k].name != name
    {
      RowsListTable(parts);
      FirstWithKey(Rows(parts), (p: Part) => p.name, name)
    }

    /** `db.session.add(Customer(...))` and commit: the row gets a fresh id. */
    method AddCustomer(name: string, email: string, phone: Option<string>, credential: Credential)
      returns (c: Customer)
      requires Valid()
      modifies this
      ensures Valid()
      ensures c.id !in old(customers) && c == Customer(c.id, name, email, phone, credential)
      ensures customers == old(customers)[c.id := c]
      ensures mechanics == old(mechanics) && parts == old(parts) && tickets == old(tickets)
    {
      c := Customer(nextCustomerId, name, email, phone, credential);
      customers := customers[c.id := c];
      nextCustomerId := nextCustomerId + 1;
    }

    /** `db.session.add(Mechanic(**data))` and commit. */
    method AddMechanic(name: string, email: string, phone: Option<string>, salary: real)
      returns (m: Mechanic)
      requires Valid()
      modifies this
      ensures Valid()
      ensures m.id !in old(mechanics) && m == Mechanic(m.id, name, email, phone, salary)
      ensures mechanics == old(mechanics)[m.id := m]
      ensures customers == old(customers) && parts == old(parts) && tickets == old(tickets)
    {
      m := Mechanic(nextMechanicId, name, email, phone, salary);
      mechanics := mechanics[m.id := m];
      nextMechanicId := nextMechanicId + 1;
    }

    /** `db.session.add(Inventory(**data))` and commit. */
    method AddPart(name: string, price: real) returns (p: Part)
      requires Valid()
      modifies this
      ensures Valid()
      ensures p.id !in old(parts) && p == Part(p.id, name, price)
      ensures parts == old(parts)[p.id := p]
      ensures customers == old(customers) && mechanics == old(mechanics) && tickets == old(tickets)
    {
      p := Part(nextPartId, name, price);
      parts := parts[p.id := p];
      nextPartId := nextPartId + 1;
    }

    /** `db.session.add(ServiceTicket(**data))` and commit: no mechanics, no parts. */
    method AddTicket(vin: string, serviceDate: string, serviceDesc: string, customerId: int)
      returns (t: Ticket)
      requires Valid()
      modifies this
      ensures Valid()
      ensures t.id !in old(tickets)
      ensures t == Ticket(t.id, vin, serviceDate, serviceDesc, customerId, [], [])
      ensures tickets == old(tickets)[t.id := t]
      ensures customers == old(customers) && mechanics == old(mechanics) && parts == old(parts)
    {
      t := Ticket(nextTicketId, vin, serviceDate, serviceDesc, customerId, [], []);
      tickets := tickets[t.id := t];
      nextTicketId := nextTicketId + 1;
    }

    /** A new list of linked mechanics for one ticket (`ticket.mechanics` changed) and commit. */
    method SetMechanics(id: int, linked: seq<int>)
      requires Valid() && id in tickets
      requires NoDup(linked) && forall m :: m in linked ==> m in mechanics
      modifies this
      ensures Valid()
      ensures tickets == old(tickets)[id := old(tickets)[id].(mechanics := linked)]
      ensures customers == old(customers) && mechanics == old(mechanics) && parts == old(parts)
    {
      tickets := tickets[id := tickets[id].(mechanics := linked)];
    }

    /** `db.session.delete(customer)` and commit. */
    method RemoveCustomer(id: int)
      requires Valid() && id in customers
      modifies this
      ensures Valid()
      ensures customers == old(customers) - {id}
      ensures mechanics == old(mechanics) && parts == old(parts) && tickets == old(tickets)
    {
      customers := customers - {id};
    }

    /** `db.session.delete(ticket)` and commit; its association rows go with it. */
    method RemoveTicket(id: int)
      requires Valid() && id in tickets
      modifies this
      ensures Valid()
      ensures tickets == old(tickets) - {id}
      ensures customers == old(customers) && mechanics == old(mechanics) && parts == old(parts)
    {
      tickets := tickets - {id};
    }

    /**
     * `db.session.delete(mechanic)` and commit. The ORM also deletes the mechanic's rows of
     * service_mechanics, so the id leaves every ticket's list.
     */
    method RemoveMechanic(id: int)
      requires Valid() && id in mechanics
      modifies this
      ensures Valid()
      ensures mechanics == old(mechanics) - {id}
      ensures tickets.Keys == old(tickets).Keys
      ensures forall k :: k in tickets ==>
                tickets[k] == old(tickets)[k].(mechanics := Without(old(tickets)[k].mechanics, id))
      ensures customers == old(customers) && parts == old(parts)
    {
      var scrubbed := map k | k in tickets :: tickets[k].(mechanics := Without(tickets[k].mechanics, id));
      forall k | k in tickets
        ensures LinksValid(scrubbed[k], mechanics - {id}, parts)
      {
        ScrubMechanicKeepsLinks(tickets[k], mechanics, parts, id);
      }
      mechanics := mechanics - {id};
      tickets := scrubbed;
    }

    /**
     * `db.session.delete(part)` and commit. The ORM also deletes the part's rows of
     * service_ticket_inventory, so the id leaves every ticket's list.
     */
    method RemovePart(id: int)
      requires Valid() && id in parts
      modifies this
      ensures Valid()
      ensures parts == old(parts) - {id}
      ensures tickets.Keys == old(tickets).Keys
      ensures forall k :: k in tickets ==>
                tickets[k] == old(tickets)[k].(parts := Without(old(tickets)[k].parts, id))
      ensures customers == old(customers) && mechanics == old(mechanics)
    {
      var scrubbed := map k | k in tickets :: tickets[k].(parts := Without(tickets[k].parts, id));
      forall k | k in tickets
        ensures LinksValid(scrubbed[k], mechanics, parts - {id})
      {
        ScrubPartKeepsLinks(tickets[k], mechanics, parts, id);
      }
      parts := parts - {id};
      tickets := scrubbed;
    }
  }
}
