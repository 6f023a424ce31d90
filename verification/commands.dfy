/**
 * The sub-commands of `/roleselector` and the option payloads they carry.
 * The platform delivers a sub-command's options as a list of (name, value)
 * pairs; the bot picks values out of that list by name or by value type.
 */
module Commands {
  import opened Wrappers
  import opened Drafts

  /** The value of one option: text, or a role the platform has resolved. */
  datatype OptionValue = Text(text: string) | RoleRef(role: Role)

  /** One option of a sub-command: the name the schema gives it and its value. */
  datatype CommandOption = CommandOption(name: string, value: OptionValue)

  /**
   * The sub-command that was invoked, with the options supplied to it;
   * `Unknown` stands for any sub-command name other than the four handled.
   */
  datatype Command =
    | Create
    | Delete
    | Add(options: seq<CommandOption>)
    | Finish(options: seq<CommandOption>)
    | Unknown(subCommand: string)

  /** How many options carry the given name. */
  function CountNamed(options: seq<CommandOption>, name: string): (n: nat)
    ensures n <= |options|
    ensures n == 0 <==> forall i :: 0 <= i < |options| ==> options[i].name != name
  {
    if options == [] then 0
    else (if options[0].name == name then 1 else 0) + CountNamed(options[1..], name)
  }

  /** The value of the first option with the given name, if any. */
  function Named(options: seq<CommandOption>, name: string): (v: Option<OptionValue>)
    ensures v.None? <==> forall i :: 0 <= i < |options| ==> options[i].name != name
    ensures v.Some? ==> exists i :: 0 <= i < |options| && options[i] == CommandOption(name, v.value)
  {
    if options == [] then None
    else if options[0].name == name then Some(options[0].value)
    else
      var v := Named(options[1..], name);
      if v.Some? then
        var i :| 0 <= i < |options[1..]| && options[1..][i] == CommandOption(name, v.value);
        assert options[i + 1] == CommandOption(name, v.value);
        v
      else v
  }

  /** The role-valued options, in the order they were supplied. */
  function RolesOf(options: seq<CommandOption>): (roles: seq<Role>)
    ensures |roles| <= |options|
    ensures forall r :: r in roles <==> exists i :: 0 <= i < |options| && options[i].value == RoleRef(r)
  {
    if options == [] then []
    else
      var rest := RolesOf(options[1..]);
      assert forall i :: 0 <= i < |options[1..]| ==> options[1..][i] == options[i + 1];
      match options[0].value
      case RoleRef(r) => [r] + rest
      case Text(_) => rest
  }

  /** The text-valued options, in the order they were supplied. */
  function TextsOf(options: seq<CommandOption>): (texts: seq<string>)
    ensures |texts| <= |options|
    ensures forall t :: t in texts <==> exists i :: 0 <= i < |options| && options[i].value == Text(t)
  {
    if options == [] then []
    else
      var rest := TextsOf(options[1..]);
      assert forall i :: 0 <= i < |options[1..]| ==> options[1..][i] == options[i + 1];
      match options[0].value
      case Text(t) => [t] + rest
      case RoleRef(_) => rest
  }

  /**
   * Filtering distributes over concatenation: the roles of a longer payload
   * are the roles of its parts, in the same order.
   */
  lemma {:induction false} RolesOfAppend(a: seq<CommandOption>, b: seq<CommandOption>)
    ensures RolesOf(a + b) == RolesOf(a) + RolesOf(b)
  {
    if a == [] {
      assert a + b == b;
    } else {
      assert (a + b)[1..] == a[1..] + b;
      RolesOfAppend(a[1..], b);
    }
  }

  /**
   * What the schema guarantees of an `add` payload: exactly one option named
   * "name", holding text, and at most twenty role options.
   */
  predicate WellFormedAdd(options: seq<CommandOption>) {
    && CountNamed(options, "name") == 1
    && Named(options, "name").Some?
    && Named(options, "name").value.Text?
    && |RolesOf(options)| <= MaxRolesPerGroup
  }

  /** The group name an `add` payload supplies. */
  function GroupName(options: seq<CommandOption>): (name: string)
    requires WellFormedAdd(options)
    ensures exists i :: 0 <= i < |options| && options[i] == CommandOption("name", Text(name))
  {
    Named(options, "name").value.text
  }

  /** What the schema guarantees of a `finish` payload: at most one text option (`message`). */
  predicate WellFormedFinish(options: seq<CommandOption>) {
    |TextsOf(options)| <= 1
  }

  /** The id of the message to replace, when the `finish` payload names one. */
  function MessageTarget(options: seq<CommandOption>): (target: Option<string>)
    requires WellFormedFinish(options)
    ensures target.None? <==> forall i :: 0 <= i < |options| ==> !options[i].value.Text?
    ensures target.Some? ==> exists i :: 0 <= i < |options| && options[i].value == Text(target.value)
  {
    var texts := TextsOf(options);
    if texts == [] then
      assert forall i :: 0 <= i < |options| && options[i].value.Text? ==> options[i].value.text in texts;
      None
    else
      assert texts[0] in texts;
      Some(texts[0])
  }

  predicate WellFormed(cmd: Command) {
    match cmd
    case Add(options) => WellFormedAdd(options)
    case Finish(options) => WellFormedFinish(options)
    case Unknown(name) => name !in {"create", "delete", "add", "finish"}
    case _ => true
  }
}
