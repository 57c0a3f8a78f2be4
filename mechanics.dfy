/** The mechanic routes of application/blueprints/mechanics/routes.py; none checks a token. */
module MechanicRoutes {
  import opened Basics
  import opened Numerals
  import opened Http
  import opened Records
  import opened Tables
  import opened Database

  /** One item of the loaded mechanic body, as `setattr` applies it. */
  datatype MechanicAttr = Name(name: string) | Email(email: string) | Phone(phone: Option<string>) | Salary(salary: real)

  /** `mechanic_data.items()`: phone is an item only when the request gave it. */
  function MechanicItems(d: MechanicInput): seq<MechanicAttr>
  {
    [Name(d.name), Email(d.email)] + (if d.phone.Given? then [Phone(d.phone.value)] else []) + [Salary(d.salary)]
  }

  /** `setattr(mechanic, key, value)` */
  function SetAttr(m: Mechanic, a: MechanicAttr): Mechanic
  {
    match a
    case Name(v) => m.(name := v)
    case Email(v) => m.(email := v)
    case Phone(v) => m.(phone := v)
    case Salary(v) => m.(salary := v)
  }

  /** The items applied in order; no item can reach the id. */
  function SetAttrs(m: Mechanic, items: seq<MechanicAttr>): (r: Mechanic)
    ensures r.id == m.id
  {
    if items == [] then m else SetAttr(SetAttrs(m, items[..|items| - 1]), items[|items| - 1])
  }

  /** Applying a loaded body sets every loaded field; a phone left out of the body is kept. */
  lemma SetAttrsOverwrites(m: Mechanic, d: MechanicInput)
    ensures SetAttrs(m, MechanicItems(d)) ==
            m.(name := d.name, email := d.email, salary := d.salary,
               phone := if d.phone.Given? then d.phone.value else m.phone)
  {
    var items := MechanicItems(d);
    var n := |items|;
    assert SetAttrs(m, items[..1]) == m.(name := d.name) by {
      assert items[..1][..0] == [];
    }
    assert SetAttrs(m, items[..2]) == m.(name := d.name, email := d.email) by {
      assert items[..2][..1] == items[..1];
    }
    if d.phone.Given? {
      assert SetAttrs(m, items[..3]) == m.(name := d.name, email := d.email, phone := d.phone.value) by {
        assert items[..3][..2] == items[..2];
      }
      assert items[..4][..3] == items[..3] && items[..4] == items;
    } else {
      assert items[..3][..2] == items[..2] && items[..3] == items;
    }
  }

  /** POST /mechanics/: an email in use is refused and nothing is inserted. */
  method CreateMechanic(db: Store, input: Loaded<MechanicInput>) returns (r: Response<Mechanic>)
    requires db.Valid()
    modifies db
    ensures db.Valid()
    ensures old(db.MechanicEmailsUnique()) ==> db.MechanicEmailsUnique()
    ensures input.Invalid? ==> r == Response(400, ValidationErrors(input.messages)) && unchanged(db)
    ensures input.Loaded? && (exists k :: k in old(db.mechanics) && old(db.mechanics)[k].email == input.data.email) ==>
              r == Response(400, Error("Email already associated with an account.")) && unchanged(db)
    ensures input.Loaded? && (forall k :: k in old(db.mechanics) ==> old(db.mechanics)[k].email != input.data.email) ==>
              && r.status == 201 && r.body.Data?
              && var d, m := input.data, r.body.value;
              && m.id !in old(db.mechanics)
              && m == Mechanic(m.id, d.name, d.email, GetOrNone(d.phone), d.salary)
              && db.mechanics == old(db.mechanics)[m.id := m]
              && db.customers == old(db.customers) && db.parts == old(db.parts)
              && db.tickets == old(db.tickets)
  {
    if input.Invalid? {
      return Response(400, ValidationErrors(input.messages));
    }
    var data := input.data;
    var existing := db.MechanicWithEmail(data.email);
    if existing.Some? {
      return Response(400, Error("Email already associated with an account."));
    }
    var m := db.AddMechanic(data.name, data.email, GetOrNone(data.phone), data.salary);
    return Response(201, Data(m));
  }

  /** GET /mechanics/: every stored mechanic and nothing else. */
  method ListMechanics(db: Store) returns (r: Response<seq<Mechanic>>)
    ensures r.status == 200 && r.body.Data?
    ensures forall k :: k in db.mechanics ==> db.mechanics[k] in r.body.value
    ensures forall m :: m in r.body.value ==> m in db.mechanics.Values
    ensures |r.body.value| == |db.mechanics.Keys|
  {
    RowsListTable(db.mechanics);
    return Response(200, Data(Rows(db.mechanics)));
  }

  /** GET /mechanics/<id> */
  method GetMechanic(db: Store, mechanicId: nat) returns (r: Response<Mechanic>)
    ensures mechanicId in db.mechanics ==> r == Response(200, Data(db.mechanics[mechanicId]))
    ensures mechanicId !in db.mechanics ==> r == NotFound("Mechanic")
  {
    if mechanicId !in db.mechanics {
      return NotFound("Mechanic");
    }
    return Response(200, Data(db.mechanics[mechanicId]));
  }

  /**
   * PUT /mechanics/<id>: the mechanic must exist (404) before the body is loaded (400); then
   * each loaded field is set. The email is not checked against the other mechanics.
   */
  method UpdateMechanic(db: Store, mechanicId: nat, input: Loaded<MechanicInput>) returns (r: Response<Mechanic>)
    requires db.Valid()
    modifies db
    ensures db.Valid()
    ensures mechanicId !in old(db.mechanics) ==> r == NotFound("Mechanic") && unchanged(db)
    ensures mechanicId in old(db.mechanics) && input.Invalid? ==>
              r == Response(400, ValidationErrors(input.messages)) && unchanged(db)
    ensures mechanicId in old(db.mechanics) && input.Loaded? ==>
              && var d, before := input.data, old(db.mechanics)[mechanicId];
              && var after := before.(name := d.name, email := d.email, salary := d.salary,
                                      phone := if d.phone.Given? then d.phone.value else before.phone);
              && db.mechanics == old(db.mechanics)[mechanicId := after]
              && r == Response(200, Data(after))
              && db.customers == old(db.customers) && db.parts == old(db.parts)
              && db.tickets == old(db.tickets)
              && (old(db.MechanicEmailsUnique()) ==>
                    (db.MechanicEmailsUnique() <==>
                       forall k :: k in old(db.mechanics) && k != mechanicId ==> old(db.mechanics)[k].email != d.email))
  {
    if mechanicId !in db.mechanics {
      return NotFound("Mechanic");
    }
    if input.Invalid? {
      return Response(400, ValidationErrors(input.messages));
    }
    var data := input.data;
    var mechanic := db.mechanics[mechanicId];
    var items := MechanicItems(data);
    for i := 0 to |items|
      invariant mechanic == SetAttrs(db.mechanics[mechanicId], items[..i])
    {
      assert items[..i + 1][..i] == items[..i];
      mechanic := SetAttr(mechanic, items[i]);
    }
    assert items[..|items|] == items;
    SetAttrsOverwrites(db.mechanics[mechanicId], data);
    if db.MechanicEmailsUnique() {
      ReplaceKeepsUnique(db.mechanics, (m: Mechanic) => m.email, mechanicId, mechanic);
    }
    db.mechanics := db.mechanics[mechanicId := mechanic];
    return Response(200, Data(mechanic));
  }

  /**
   * DELETE /mechanics/<id>: the mechanic goes, and with it its links to tickets; it answers
   * 200, not 204.
   */
  method DeleteMechanic(db: Store, mechanicId: nat) returns (r: Response<()>)
    requires db.Valid()
    modifies db
    ensures db.Valid()
    ensures mechanicId !in old(db.mechanics) ==> r == NotFound("Mechanic") && unchanged(db)
    ensures mechanicId in old(db.mechanics) ==>
              && r == Response(200, Message("Mechanic: " + ShowInt(mechanicId) + " deleted successfully."))
              && db.mechanics == old(db.mechanics) - {mechanicId}
              && db.tickets.Keys == old(db.tickets).Keys
              && (forall k :: k in db.tickets ==>
                    db.tickets[k] == old(db.tickets)[k].(mechanics := Without(old(db.tickets)[k].mechanics, mechanicId)))
              && db.customers == old(db.customers) && db.parts == old(db.parts)
  {
    if mechanicId !in db.mechanics {
      return NotFound("Mechanic");
    }
    db.RemoveMechanic(mechanicId);
    return Response(200, Message("Mechanic: " + ShowInt(mechanicId) + " deleted successfully."));
  }
}
