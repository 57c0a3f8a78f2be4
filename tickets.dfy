/**
 * The service-ticket routes of application/blueprints/tickets/routes.py. They take the owning
 * customer from the request body and check no token.
 */
module TicketRoutes {
  import opened Numerals
  import opened Http
  import opened Records
  import opened Tables
  import opened Database

  /** One item of the loaded ticket body, as `setattr` applies it. */
  datatype TicketAttr =
    | Vin(vin: string)
    | ServiceDate(serviceDate: string)
    | ServiceDesc(serviceDesc: string)
    | CustomerId(customerId: int)

  /** `{"message": "Mechanic already assigned.", "ticket_id": ...}` or the updated ticket. */
  datatype Assignment = AlreadyAssigned(message: string, ticketId: int) | AssignedTicket(ticket: Ticket)

  /** `{"message": ..., "ticket_id": ..., "remaining_mechanic_ids": [...]}` */
  datatype Removal = Removal(message: string, ticketId: int, remainingMechanicIds: seq<int>)

  /** `ticket_data.items()`: the four loaded keys. */
  function TicketItems(d: TicketInput): seq<TicketAttr>
  {
    [Vin(d.vin), ServiceDate(d.serviceDate), ServiceDesc(d.serviceDesc), CustomerId(d.customerId)]
  }

  /** `setattr(ticket, key, value)` */
  function SetAttr(t: Ticket, a: TicketAttr): Ticket
  {
    match a
    case Vin(v) => t.(vin := v)
    case ServiceDate(v) => t.(serviceDate := v)
    case ServiceDesc(v) => t.(serviceDesc := v)
    case CustomerId(v) => t.(customerId := v)
  }

  /** The items applied in order; no item can reach the id or the linked lists. */
  function SetAttrs(t: Ticket, items: seq<TicketAttr>): (r: Ticket)
    ensures r.id == t.id && r.mechanics == t.mechanics && r.parts == t.parts
  {
    if items == [] then t else SetAttr(SetAttrs(t, items[..|items| - 1]), items[|items| - 1])
  }

  /** Applying a loaded body overwrites exactly the four loaded fields. */
  lemma SetAttrsOverwrites(t: Ticket, d: TicketInput)
    ensures SetAttrs(t, TicketItems(d)) ==
            t.(vin := d.vin, serviceDate := d.serviceDate, serviceDesc := d.serviceDesc,
               customerId := d.customerId)
  {
    var items := TicketItems(d);
    assert SetAttrs(t, items[..1]) == t.(vin := d.vin) by {
      assert items[..1][..0] == [];
    }
    assert SetAttrs(t, items[..2]) == t.(vin := d.vin, serviceDate := d.serviceDate) by {
      assert items[..2][..1] == items[..1];
    }
    assert SetAttrs(t, items[..3]) ==
           t.(vin := d.vin, serviceDate := d.serviceDate, serviceDesc := d.serviceDesc) by {
      assert items[..3][..2] == items[..2];
    }
    assert items[..4][..3] == items[..3] && items[..4] == items;
  }

  /** POST /service-tickets/ */
  method CreateTicket(db: Store, input: Loaded<TicketInput>) returns (r: Response<Ticket>)
    requires db.Valid()
    modifies db
    ensures db.Valid()
    ensures input.Invalid? ==> r == Response(400, ValidationErrors(input.messages)) && unchanged(db)
    ensures input.Loaded? && input.data.customerId !in old(db.customers) ==>
              r == NotFound("Customer") && unchanged(db)
    ensures input.Loaded? && input.data.customerId in old(db.customers) ==>
              && r.status == 201 && r.body.Data?
              && var t := r.body.value;
              && t.id !in old(db.tickets)
              && t == Ticket(t.id, input.data.vin, input.data.serviceDate, input.data.serviceDesc,
                             input.data.customerId, [], [])
              && db.tickets == old(db.tickets)[t.id := t]
              && db.customers == old(db.customers) && db.mechanics == old(db.mechanics)
              && db.parts == old(db.parts)
  {
    if input.Invalid? {
      return Response(400, ValidationErrors(input.messages));
    }
    var data := input.data;
    if data.customerId !in db.customers {
      return NotFound("Customer");
    }
    var t := db.AddTicket(data.vin, data.serviceDate, data.serviceDesc, data.customerId);
    return Response(201, Data(t));
  }

  /** GET /service-tickets/: every stored ticket and nothing else. */
  method ListTickets(db: Store) returns (r: Response<seq<Ticket>>)
    ensures r.status == 200 && r.body.Data?
    ensures forall k :: k in db.tickets ==> db.tickets[k] in r.body.value
    ensures forall t :: t in r.body.value ==> t in db.tickets.Values
    ensures |r.body.value| == |db.tickets.Keys|
  {
    RowsListTable(db.tickets);
    return Response(200, Data(Rows(db.tickets)));
  }

  /** GET /service-tickets/<id> */
  method GetTicket(db: Store, ticketId: nat) returns (r: Response<Ticket>)
    ensures ticketId in db.tickets ==> r == Response(200, Data(db.tickets[ticketId]))
    ensures ticketId !in db.tickets ==> r == NotFound("Ticket")
  {
    if ticketId !in db.tickets {
      return NotFound("Ticket");
    }
    return Response(200, Data(db.tickets[ticketId]));
  }

  /**
   * PUT /service-tickets/<id>: the ticket must exist (404), then the body must load (400), then
   * its customer must exist (404); then the loaded fields are set one by one.
   */
  method UpdateTicket(db: Store, ticketId: nat, input: Loaded<TicketInput>) returns (r: Response<Ticket>)
    requires db.Valid()
    modifies db
    ensures db.Valid()
    ensures ticketId !in old(db.tickets) ==> r == NotFound("Ticket") && unchanged(db)
    ensures ticketId in old(db.tickets) && input.Invalid? ==>
              r == Response(400, ValidationErrors(input.messages)) && unchanged(db)
    ensures ticketId in old(db.tickets) && input.Loaded? && input.data.customerId !in old(db.customers) ==>
              r == NotFound("Customer") && unchanged(db)
    ensures ticketId in old(db.tickets) && input.Loaded? && input.data.customerId in old(db.customers) ==>
              && var d := input.data;
              && db.tickets == old(db.tickets)[ticketId := old(db.tickets)[ticketId].(
                   vin := d.vin, serviceDate := d.serviceDate, serviceDesc := d.serviceDesc,
                   customerId := d.customerId)]
              && db.tickets[ticketId].mechanics == old(db.tickets)[ticketId].mechanics
              && r == Response(200, Data(db.tickets[ticketId]))
              && db.customers == old(db.customers) && db.mechanics == old(db.mechanics)
              && db.parts == old(db.parts)
  {
    if ticketId !in db.tickets {
      return NotFound("Ticket");
    }
    if input.Invalid? {
      return Response(400, ValidationErrors(input.messages));
    }
    var data := input.data;
    if data.customerId !in db.customers {
      return NotFound("Customer");
    }
    var ticket := db.tickets[ticketId];
    var items := TicketItems(data);
    for i := 0 to |items|
      invariant ticket == SetAttrs(db.tickets[ticketId], items[..i])
    {
      assert items[..i + 1][..i] == items[..i];
      ticket := SetAttr(ticket, items[i]);
    }
    assert items[..|items|] == items;
    SetAttrsOverwrites(db.tickets[ticketId], data);
    db.tickets := db.tickets[ticketId := ticket];
    return Response(200, Data(ticket));
  }

  /** DELETE /service-tickets/<id>: exactly that ticket goes. */
  method DeleteTicket(db: Store, ticketId: nat) returns (r: Response<()>)
    requires db.Valid()
    modifies db
    ensures db.Valid()
    ensures ticketId !in old(db.tickets) ==> r == NotFound("Ticket") && unchanged(db)
    ensures ticketId in old(db.tickets) ==>
              && r == Response(200, Message("Ticket: " + ShowInt(ticketId) + " deleted successfully."))
              && db.tickets == old(db.tickets) - {ticketId}
              && db.customers == old(db.customers) && db.mechanics == old(db.mechanics)
              && db.parts == old(db.parts)
  {
    if ticketId !in db.tickets {
      return NotFound("Ticket");
    }
    db.RemoveTicket(ticketId);
    return Response(200, Message("Ticket: " + ShowInt(ticketId) + " deleted successfully."));
  }

  /**
   * PUT /service-tickets/<id>/assign-mechanic/<mechanic_id>: the ticket is looked up before the
   * mechanic; a mechanic already on the ticket is a 200 with no change.
   */
  method AssignMechanic(db: Store, ticketId: nat, mechanicId: nat) returns (r: Response<Assignment>)
    requires db.Valid()
    modifies db
    ensures db.Valid()
    ensures ticketId !in old(db.tickets) ==> r == NotFound("Ticket") && unchanged(db)
    ensures ticketId in old(db.tickets) && mechanicId !in old(db.mechanics) ==>
              r == NotFound("Mechanic") && unchanged(db)
    ensures ticketId in old(db.tickets) && mechanicId in old(db.mechanics) ==>
              && var before := old(db.tickets)[ticketId];
              && db.tickets == old(db.tickets)[ticketId := before.(
                   mechanics := AppendIfAbsent(before.mechanics, mechanicId))]
              && db.customers == old(db.customers) && db.mechanics == old(db.mechanics)
              && db.parts == old(db.parts)
              && (mechanicId in before.mechanics ==>
                    r == Response(200, Data(AlreadyAssigned("Mechanic already assigned.", ticketId)))
                    && unchanged(db))
              && (mechanicId !in before.mechanics ==>
                    r == Response(200, Data(AssignedTicket(db.tickets[ticketId]))))
  {
    if ticketId !in db.tickets {
      return NotFound("Ticket");
    }
    if mechanicId !in db.mechanics {
      return NotFound("Mechanic");
    }
    var ticket := db.tickets[ticketId];
    if mechanicId in ticket.mechanics {
      return Response(200, Data(AlreadyAssigned("Mechanic already assigned.", ticketId)));
    }
    AppendIfAbsentNoDup(ticket.mechanics, mechanicId);
    db.SetMechanics(ticketId, ticket.mechanics + [mechanicId]);
    return Response(200, Data(AssignedTicket(db.tickets[ticketId])));
  }

  /**
   * PUT /service-tickets/<id>/remove-mechanic/<mechanic_id>: a mechanic not on the ticket is a
   * 400; otherwise it leaves the list and the others keep their order.
   */
  method RemoveMechanic(db: Store, ticketId: nat, mechanicId: nat) returns (r: Response<Removal>)
    requires db.Valid()
    modifies db
    ensures db.Valid()
    ensures ticketId !in old(db.tickets) ==> r == NotFound("Ticket") && unchanged(db)
    ensures ticketId in old(db.tickets) && mechanicId !in old(db.mechanics) ==>
              r == NotFound("Mechanic") && unchanged(db)
    ensures ticketId in old(db.tickets) && mechanicId in old(db.mechanics) &&
            mechanicId !in old(db.tickets)[ticketId].mechanics ==>
              r == Response(400, Error("Mechanic not assigned to this ticket.")) && unchanged(db)
    ensures ticketId in old(db.tickets) && mechanicId in old(db.mechanics) &&
            mechanicId in old(db.tickets)[ticketId].mechanics ==>
              && var before := old(db.tickets)[ticketId];
              && var after := RemoveFirst(before.mechanics, mechanicId);
              && db.tickets == old(db.tickets)[ticketId := before.(mechanics := after)]
              && after == Without(before.mechanics, mechanicId)
              && r == Response(200, Data(Removal("Mechanic removed from ticket.", ticketId, after)))
              && db.customers == old(db.customers) && db.mechanics == old(db.mechanics)
              && db.parts == old(db.parts)
  {
    if ticketId !in db.tickets {
      return NotFound("Ticket");
    }
    if mechanicId !in db.mechanics {
      return NotFound("Mechanic");
    }
    var ticket := db.tickets[ticketId];
    if mechanicId !in ticket.mechanics {
      return Response(400, Error("Mechanic not assigned to this ticket."));
    }
    RemoveFirstNoDup(ticket.mechanics, mechanicId);
    var remaining := RemoveFirst(ticket.mechanics, mechanicId);
    db.SetMechanics(ticketId, remaining);
    return Response(200, Data(Removal("Mechanic removed from ticket.", ticketId, remaining)));
  }
}
