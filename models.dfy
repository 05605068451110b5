/**
 * The meal application's entities (Nationality, Employee, Menu, MenuOption,
 * Order) and the database tables the views read and write.
 */
module Models {
  import opened Wrappers

  type Uuid = string

  datatype Nationality = Nationality(iso2Code: string, countryName: string)

  /** An employee; the webhook and the nationality are nullable columns. */
  datatype Employee = Employee(
    id: nat,
    email: string,
    name: string,
    slackWebHook: Option<string>,
    nationality: Option<Nationality>)

  /** A menu row; its options and orders live in their own tables. */
  datatype Menu = Menu(date: string, isPublished: bool)

  /** One meal option of the menu `menu`, with its stored display number. */
  datatype MenuOption = MenuOption(menu: Uuid, description: string, optionNumber: int)

  /** One employee's order against the menu `menu`. */
  datatype Order = Order(
    id: nat,
    employeeId: nat,
    menu: Uuid,
    selectedOption: int,
    customizations: string)

  /**
   * The tables as a value: menus by uuid, the option and order tables in
   * row order, and the next primary key the order table hands out.
   */
  datatype Tables = Tables(
    menus: map<Uuid, Menu>,
    mealOptions: seq<MenuOption>,
    orders: seq<Order>,
    nextOrderId: nat)

  /** The database the views update in place. */
  class Database {
    var menus: map<Uuid, Menu>
    var mealOptions: seq<MenuOption>
    var orders: seq<Order>
    var nextOrderId: nat

    function Snapshot(): Tables
      reads this
    {
      Tables(menus, mealOptions, orders, nextOrderId)
    }

    constructor (initial: Tables)
      ensures Snapshot() == initial
    {
      menus := initial.menus;
      mealOptions := initial.mealOptions;
      orders := initial.orders;
      nextOrderId := initial.nextOrderId;
    }
  }
}
