/**
 * The message component a finished draft becomes, and the reading of a
 * published component that the interaction handlers perform.
 *
 * A component is a list of action rows, each holding items (select menus or
 * buttons). Reading a component flattens the rows and keeps the select
 * menus, so what is read back does not depend on how items are laid out in
 * rows.
 */
module Components {
  import opened Wrappers
  import opened Drafts

  /** One option of a select menu: the role's display name and the role id as its value. */
  datatype MenuOption = MenuOption(text: string, value: nat)

  datatype SelectMenu = SelectMenu(
    customId: string,
    placeholder: string,
    minValues: nat,
    maxValues: nat,
    options: seq<MenuOption>)

  datatype ButtonStyle = Primary | Danger

  datatype Button = Button(text: string, customId: string, style: ButtonStyle)

  datatype Item = MenuItem(menu: SelectMenu) | ButtonItem(button: Button)

  datatype ActionRow = ActionRow(items: seq<Item>)

  datatype Component = Component(rows: seq<ActionRow>)

  /** The two fixed buttons every finished draft ends with. */
  const ListButton: Button := Button("list all", "list", Primary)
  const RemoveButton: Button := Button("remove all", "remove", Danger)

  // ---------------------------------------------------------------------
  // Reading a component
  // ---------------------------------------------------------------------

  /** All items of all rows, row by row. */
  function Items(rows: seq<ActionRow>): seq<Item> {
    if rows == [] then [] else rows[0].items + Items(rows[1..])
  }

  /** The select menus among the items, in order. */
  function MenusOf(items: seq<Item>): seq<SelectMenu> {
    if items == [] then []
    else (if items[0].MenuItem? then [items[0].menu] else []) + MenusOf(items[1..])
  }

  /** The buttons among the items, in order. */
  function ButtonsOf(items: seq<Item>): seq<Button> {
    if items == [] then []
    else (if items[0].ButtonItem? then [items[0].button] else []) + ButtonsOf(items[1..])
  }

  function CustomIdOf(item: Item): string {
    match item
    case MenuItem(m) => m.customId
    case ButtonItem(b) => b.customId
  }

  /** The custom ids of all items of a component, row by row. */
  function CustomIds(c: Component): (ids: seq<string>)
    ensures |ids| == |Items(c.rows)|
    ensures forall i :: 0 <= i < |ids| ==> ids[i] == CustomIdOf(Items(c.rows)[i])
  {
    var items := Items(c.rows);
    seq(|items|, i requires 0 <= i < |items| => CustomIdOf(items[i]))
  }

  function Menus(c: Component): seq<SelectMenu> {
    MenusOf(Items(c.rows))
  }

  function Buttons(c: Component): seq<Button> {
    ButtonsOf(Items(c.rows))
  }

  /** The values of a menu's options, read back as role ids. */
  function OptionValues(m: SelectMenu): (ids: seq<nat>)
    ensures |ids| == |m.options|
    ensures forall i :: 0 <= i < |ids| ==> ids[i] == m.options[i].value
  {
    seq(|m.options|, i requires 0 <= i < |m.options| => m.options[i].value)
  }

  /** The menus that carry the given custom id. */
  function MenusWithId(menus: seq<SelectMenu>, customId: string): seq<SelectMenu> {
    if menus == [] then []
    else (if menus[0].customId == customId then [menus[0]] else []) + MenusWithId(menus[1..], customId)
  }

  /** Exactly the menu at position i carries the given custom id. */
  ghost predicate OnlyMenuWithId(menus: seq<SelectMenu>, customId: string, i: int) {
    && 0 <= i < |menus|
    && menus[i].customId == customId
    && forall j :: 0 <= j < |menus| && j != i ==> menus[j].customId != customId
  }

  lemma {:induction false} MenusWithIdSingle(menus: seq<SelectMenu>, customId: string)
    ensures |MenusWithId(menus, customId)| == 1 <==> exists i :: OnlyMenuWithId(menus, customId, i)
    ensures forall i :: OnlyMenuWithId(menus, customId, i) ==> MenusWithId(menus, customId) == [menus[i]]
  {
    if menus != [] {
      var rest := menus[1..];
      MenusWithIdSingle(rest, customId);
      MenusWithIdNone(rest, customId);
      forall i | OnlyMenuWithId(menus, customId, i) && i > 0
        ensures OnlyMenuWithId(rest, customId, i - 1)
      {
      }
      if menus[0].customId != customId {
        if |MenusWithId(menus, customId)| == 1 {
          var i :| OnlyMenuWithId(rest, customId, i);
          assert OnlyMenuWithId(menus, customId, i + 1);
        }
      } else {
        if |MenusWithId(menus, customId)| == 1 {
          assert OnlyMenuWithId(menus, customId, 0);
        }
      }
    }
  }

  lemma {:induction false} MenusWithIdNone(menus: seq<SelectMenu>, customId: string)
    ensures MenusWithId(menus, customId) == [] <==> forall j :: 0 <= j < |menus| ==> menus[j].customId != customId
  {
    if menus != [] {
      MenusWithIdNone(menus[1..], customId);
    }
  }

  /**
   * The role ids a message's menu with the given custom id offers, read as
   * the select-menu handler reads them; there is no answer unless exactly
   * one menu of the message carries that custom id.
   */
  function OfferedIds(c: Component, customId: string): (offered: Option<seq<nat>>)
    ensures offered.Some? <==> exists i :: OnlyMenuWithId(Menus(c), customId, i)
    ensures forall i :: OnlyMenuWithId(Menus(c), customId, i) ==> offered == Some(OptionValues(Menus(c)[i]))
  {
    var matching := MenusWithId(Menus(c), customId);
    MenusWithIdSingle(Menus(c), customId);
    if |matching| == 1 then Some(OptionValues(matching[0])) else None
  }

  /** The values of every option of every menu, menu by menu. */
  function AllValuesOf(menus: seq<SelectMenu>): (ids: seq<nat>)
    ensures forall id :: id in ids <==> exists i :: 0 <= i < |menus| && id in OptionValues(menus[i])
  {
    if menus == [] then []
    else
      var rest := AllValuesOf(menus[1..]);
      assert forall i :: 0 <= i < |menus[1..]| ==> menus[1..][i] == menus[i + 1];
      OptionValues(menus[0]) + rest
  }

  /** Every role id some menu of the message offers, as both buttons read them. */
  function AllOfferedIds(c: Component): (ids: seq<nat>)
    ensures forall id :: id in ids <==> exists i :: 0 <= i < |Menus(c)| && id in OptionValues(Menus(c)[i])
  {
    AllValuesOf(Menus(c))
  }

  // ---------------------------------------------------------------------
  // Rendering a draft
  // ---------------------------------------------------------------------

  /** The menu a group becomes: one option per role, in the group's order. */
  function MenuFor(g: Group): (m: SelectMenu)
    ensures m.customId == g.name
    ensures m.placeholder == "Select " + g.name + "(s)"
    ensures m.minValues == 0 && m.maxValues == |g.roles|
    ensures |m.options| == |g.roles|
    ensures forall i :: 0 <= i < |g.roles| ==> m.options[i].text == g.roles[i].name
    ensures OptionValues(m) == RoleIds(g.roles)
  {
    var options := seq(|g.roles|, i requires 0 <= i < |g.roles| => MenuOption(g.roles[i].name, g.roles[i].id));
    SelectMenu(g.name, "Select " + g.name + "(s)", 0, |g.roles|, options)
  }

  /** One row per group, each holding that group's menu. */
  function MenuRows(d: Draft): (rows: seq<ActionRow>)
    ensures |rows| == |d|
  {
    if d == [] then [] else [ActionRow([MenuItem(MenuFor(d[0]))])] + MenuRows(d[1..])
  }

  const ButtonRow: ActionRow := ActionRow([ButtonItem(ListButton), ButtonItem(RemoveButton)])

  /**
   * The component `finish` publishes: the groups' menus in draft order,
   * then the "list all" and "remove all" buttons.
   */
  function Render(d: Draft): (c: Component)
    ensures |Menus(c)| == |d|
    ensures forall i :: 0 <= i < |d| ==> Menus(c)[i] == MenuFor(d[i])
    ensures Buttons(c) == [ListButton, RemoveButton]
    ensures CustomIds(c) == GroupNames(d) + ["list", "remove"]
  {
    var c := Component(MenuRows(d) + [ButtonRow]);
    RenderedItems(d);
    MenusOfMenuItems(d);
    ButtonsOfMenuItems(d);
    MenusOfAppend(MenuItems(d), ButtonRow.items);
    ButtonsOfAppend(MenuItems(d), ButtonRow.items);
    ButtonRowContents();
    c
  }

  lemma ButtonRowContents()
    ensures MenusOf(ButtonRow.items) == []
    ensures ButtonsOf(ButtonRow.items) == [ListButton, RemoveButton]
  {
    var tail := [ButtonItem(RemoveButton)];
    assert ButtonRow.items[1..] == tail && tail[1..] == [];
    assert MenusOf(tail) == [] && ButtonsOf(tail) == [RemoveButton];
  }

  /** The items of the menu rows of a draft. */
  function MenuItems(d: Draft): (items: seq<Item>)
    ensures |items| == |d|
    ensures forall i :: 0 <= i < |d| ==> items[i] == MenuItem(MenuFor(d[i]))
  {
    seq(|d|, i requires 0 <= i < |d| => MenuItem(MenuFor(d[i])))
  }

  lemma {:induction false} ItemsAppend(a: seq<ActionRow>, b: seq<ActionRow>)
    ensures Items(a + b) == Items(a) + Items(b)
  {
    if a == [] {
      assert a + b == b;
    } else {
      assert (a + b)[1..] == a[1..] + b;
      ItemsAppend(a[1..], b);
    }
  }

  lemma {:induction false} MenusOfAppend(a: seq<Item>, b: seq<Item>)
    ensures MenusOf(a + b) == MenusOf(a) + MenusOf(b)
  {
    if a == [] {
      assert a + b == b;
    } else {
      assert (a + b)[0] == a[0];
      assert (a + b)[1..] == a[1..] + b;
      MenusOfAppend(a[1..], b);
      assert MenusOf(a + b) == (if a[0].MenuItem? then [a[0].menu] else []) + MenusOf(a[1..] + b);
    }
  }

  lemma {:induction false} ButtonsOfAppend(a: seq<Item>, b: seq<Item>)
    ensures ButtonsOf(a + b) == ButtonsOf(a) + ButtonsOf(b)
  {
    if a == [] {
      assert a + b == b;
    } else {
      assert (a + b)[1..] == a[1..] + b;
      ButtonsOfAppend(a[1..], b);
    }
  }

  lemma {:induction false} MenuRowItems(d: Draft)
    ensures Items(MenuRows(d)) == MenuItems(d)
  {
    if d != [] {
      MenuRowItems(d[1..]);
      assert Items(MenuRows(d)) == [MenuItem(MenuFor(d[0]))] + Items(MenuRows(d[1..]));
      assert MenuItems(d) == [MenuItem(MenuFor(d[0]))] + MenuItems(d[1..]);
    }
  }

  lemma RenderedItems(d: Draft)
    ensures Items(MenuRows(d) + [ButtonRow]) == MenuItems(d) + ButtonRow.items
  {
    ItemsAppend(MenuRows(d), [ButtonRow]);
    MenuRowItems(d);
    assert Items([ButtonRow]) == ButtonRow.items + Items([]);
  }

  lemma {:induction false} MenusOfMenuItems(d: Draft)
    ensures MenusOf(MenuItems(d)) == seq(|d|, i requires 0 <= i < |d| => MenuFor(d[i]))
  {
    if d != [] {
      MenusOfMenuItems(d[1..]);
      assert MenuItems(d)[1..] == MenuItems(d[1..]);
    }
  }

  lemma {:induction false} ButtonsOfMenuItems(d: Draft)
    ensures ButtonsOf(MenuItems(d)) == []
  {
    if d != [] {
      ButtonsOfMenuItems(d[1..]);
      assert MenuItems(d)[1..] == MenuItems(d[1..]);
    }
  }

  // ---------------------------------------------------------------------
  // Properties of a rendered draft
  // ---------------------------------------------------------------------

  /**
   * Round trip: reading the menu of a group back out of the rendered
   * component yields exactly that group's role ids, in order; a custom id
   * that names no group yields nothing.
   */
  lemma RenderRoundTrip(d: Draft)
    requires Distinct(GroupNames(d))
    ensures forall i :: 0 <= i < |d| ==> OfferedIds(Render(d), d[i].name) == Some(RoleIds(d[i].roles))
    ensures forall name :: name !in GroupNames(d) ==> OfferedIds(Render(d), name) == None
  {
  }

  /**
   * The ids both buttons work on, read from a rendered draft, are exactly
   * the role ids of all its groups.
   */
  lemma RenderAllOffered(d: Draft)
    ensures forall id :: id in AllOfferedIds(Render(d)) <==> exists i :: 0 <= i < |d| && id in RoleIds(d[i].roles)
  {
  }

  /**
   * The custom ids of a rendered draft are pairwise distinct exactly when
   * the group names are and no group is called "list" or "remove", the
   * buttons' ids.
   */
  lemma RenderCustomIdsDistinct(d: Draft)
    ensures Distinct(CustomIds(Render(d))) <==>
      Distinct(GroupNames(d)) && "list" !in GroupNames(d) && "remove" !in GroupNames(d)
  {
    var names := GroupNames(d);
    var ids := CustomIds(Render(d));
    assert ids == names + ["list", "remove"];
    assert ids[|names|] == "list" && ids[|names| + 1] == "remove";
    if Distinct(ids) {
      forall i, j | 0 <= i < j < |names|
        ensures names[i] != names[j]
      {
        assert ids[i] == names[i] && ids[j] == names[j];
      }
      forall i | 0 <= i < |names|
        ensures names[i] != "list" && names[i] != "remove"
      {
        assert ids[i] == names[i];
      }
    }
  }
}
