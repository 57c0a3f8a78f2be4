/** The inventory routes of application/blueprints/inventory/routes.py; none checks a token. */
module InventoryRoutes {
  import opened Http
  import opened Records
  import opened Tables
  import opened Database

  /** POST /inventory/: a name in use is refused and nothing is inserted. */
  method CreatePart(db: Store, input: Loaded<PartInput>) returns (r: Response<Part>)
    requires db.Valid()
    modifies db
    ensures db.Valid()
    ensures old(db.PartNamesUnique()) ==> db.PartNamesUnique()
    ensures input.Invalid? ==> r == Response(400, ValidationErrors(input.messages)) && unchanged(db)
    ensures input.Loaded? && (exists k :: k in old(db.parts) && old(db.parts)[k].name == input.data.name) ==>
              r == Response(400, Error("Part name already exists.")) && unchanged(db)
    ensures input.Loaded? && (forall k :: k in old(db.parts) ==> old(db.parts)[k].name != input.data.name) ==>
              && r.status == 201 && r.body.Data?
              && var p := r.body.value;
              && p.id !in old(db.parts)
              && p == Part(p.id, input.data.name, input.data.price)
              && db.parts == old(db.parts)[p.id := p]
              && db.customers == old(db.customers) && db.mechanics == old(db.mechanics)
              && db.tickets == old(db.tickets)
  {
    if input.Invalid? {
      return Response(400, ValidationErrors(input.messages));
    }
    var data := input.data;
    var existing := db.PartWithName(data.name);
    if existing.Some? {
      return Response(400, Error("Part name already exists."));
    }
    var p := db.AddPart(data.name, data.price);
    return Response(201, Data(p));
  }

  /** GET /inventory/: every stored part and nothing else. */
  method ListParts(db: Store) returns (r: Response<seq<Part>>)
    ensures r.status == 200 && r.body.Data?
    ensures forall k :: k in db.parts ==> db.parts[k] in r.body.value
    ensures forall p :: p in r.body.value ==> p in db.parts.Values
    ensures |r.body.value| == |db.parts.Keys|
  {
    RowsListTable(db.parts);
    return Response(200, Data(Rows(db.parts)));
  }

  /** GET /inventory/<id> */
  method GetPart(db: Store, partId: nat) returns (r: Response<Part>)
    ensures partId in db.parts ==> r == Response(200, Data(db.parts[partId]))
    ensures partId !in db.parts ==> r == NotFound("Part")
  {
    if partId !in db.parts {
      return NotFound("Part");
    }
    return Response(200, Data(db.parts[partId]));
  }

  /**
   * PUT /inventory/<id>: the part must exist (404) before the body is loaded (400); then name
   * and price are set. The name is not checked against the other parts.
   */
  method UpdatePart(db: Store, partId: nat, input: Loaded<PartInput>) returns (r: Response<Part>)
    requires db.Valid()
    modifies db
    ensures db.Valid()
    ensures partId !in old(db.parts) ==> r == NotFound("Part") && unchanged(db)
    ensures partId in old(db.parts) && input.Invalid? ==>
              r == Response(400, ValidationErrors(input.messages)) && unchanged(db)
    ensures partId in old(db.parts) && input.Loaded? ==>
              && var d := input.data;
              && var after := old(db.parts)[partId].(name := d.name, price := d.price);
              && db.parts == old(db.parts)[partId := after]
              && r == Response(200, Data(after))
              && db.customers == old(db.customers) && db.mechanics == old(db.mechanics)
              && db.tickets == old(db.tickets)
              && (old(db.PartNamesUnique()) ==>
                    (db.PartNamesUnique() <==>
                       forall k :: k in old(db.parts) && k != partId ==> old(db.parts)[k].name != d.name))
  {
    if partId !in db.parts {
      return NotFound("Part");
    }
    if input.Invalid? {
      return Response(400, ValidationErrors(input.messages));
    }
    var data := input.data;
    var part := db.parts[partId];
    part := part.(name := data.name);
    part := part.(price := data.price);
    if db.PartNamesUnique() {
      ReplaceKeepsUnique(db.parts, (p: Part) => p.name, partId, part);
    }
    db.parts := db.parts[partId := part];
    return Response(200, Data(part));
  }

  /** DELETE /inventory/<id>: the part goes, and with it its links to tickets. */
  method DeletePart(db: Store, partId: nat) returns (r: Response<()>)
    requires db.Valid()
    modifies db
    ensures db.Valid()
    ensures partId !in old(db.parts) ==> r == NotFound("Part") && unchanged(db)
    ensures partId in old(db.parts) ==>
              && r == Response(200, Message("Part deleted successfully."))
              && db.parts == old(db.parts) - {partId}
              && db.tickets.Keys == old(db.tickets).Keys
              && (forall k :: k in db.tickets ==>
                    db.tickets[k] == old(db.tickets)[k].(parts := Without(old(db.tickets)[k].parts, partId)))
              && db.customers == old(db.customers) && db.mechanics == old(db.mechanics)
  {
    if partId !in db.parts {
      return NotFound("Part");
    }
    db.RemovePart(partId);
    return Response(200, Message("Part deleted successfully."));
  }
}
