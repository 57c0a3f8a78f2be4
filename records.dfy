/**
 * The rows of the shop's four tables (the files under application/models) and the request bodies the
 * routes load. Every row carries its own primary key, as the ORM objects do.
 */
module Records {
  import opened Basics

  /**
   * The stored password hash. Salting and one-wayness are not modelled: a credential
   * accepts exactly the password it was made from.
   */
  datatype Credential = Credential(secret: string)

  /** `set_password` */
  function HashPassword(password: string): Credential
  {
    Credential(password)
  }

  /** `check_password` */
  predicate CheckPassword(c: Credential, password: string)
  {
    c.secret == password
  }

  datatype Customer = Customer(id: int, name: string, email: string, phone: Option<string>,
                               credential: Credential)

  /** `salary` is a float the routes only store, so a real stands for it. */
  datatype Mechanic = Mechanic(id: int, name: string, email: string, phone: Option<string>,
                               salary: real)

  /** An inventory part; `price` is a float the routes only store. */
  datatype Part = Part(id: int, name: string, price: real)

  /**
   * A service ticket with its owner and the ordered ids of its linked mechanics and parts
   * (the rows of the association tables service_mechanics and service_ticket_inventory).
   */
  datatype Ticket = Ticket(id: int, vin: string, serviceDate: string, serviceDesc: string,
                           customerId: int, mechanics: seq<int>, parts: seq<int>)

  /** CustomerSchema: name, email and password are required, phone may be left out or null. */
  datatype CustomerInput = CustomerInput(name: string, email: string, phone: Field<Option<string>>,
                                         password: string)

  datatype LoginInput = LoginInput(email: string, password: string)

  datatype MechanicInput = MechanicInput(name: string, email: string, phone: Field<Option<string>>,
                                         salary: real)

  datatype PartInput = PartInput(name: string, price: real)

  /** The ticket schema loads these four; `mechanics` and `parts` are dump-only. */
  datatype TicketInput = TicketInput(vin: string, serviceDate: string, serviceDesc: string,
                                     customerId: int)
}
