/** core/template/template.go: which form fields a template names. Parse trees hold the node
    kinds the walk handles; what the template library's functions, printing and iteration do
    is a parameter. */
module Template {
  import opened Wrappers

  datatype Node =
    | List(nodes: seq<Node>)
    | Text(text: string)
    | Action(pipe: Node)
    | Pipe(cmds: seq<Node>)
    | Command(args: seq<Node>)
    | Field(ident: seq<string>)
    | Chain(node: Node, fields: seq<string>)
    | If(pipe: Node, list: Node, elseList: Node)
    | Range(pipe: Node, list: Node, elseList: Node)
    | With(pipe: Node, list: Node, elseList: Node)
    | Dot
    | Root(fields: seq<string>)          // $ and $.a.b
    | StringLit(text: string)
    | NumberLit(number: int)
    | Identifier(name: string)
    | Nested(name: string, pipe: Node)   // {{template "name" pipe}}
    | Absent                             // a nil branch

  // --- The walk ---------------------------------------------------------------------------

  /** The first identifiers of the field references the walk reaches. */
  function Fields(node: Node): set<string> {
    match node
    case List(ns) => FieldsOfAll(ns)
    case Action(p) => Fields(p)
    case Pipe(cs) => FieldsOfAll(cs)
    case Command(args) => FieldsOfAll(args)
    case Field(ident) => if ident == [] then {} else {ident[0]}
    case Chain(n, _) => Fields(n)
    case If(p, l, e) => Fields(p) + Fields(l) + Fields(e)
    case Range(p, l, e) => Fields(p) + Fields(l) + Fields(e)
    case With(p, l, e) => Fields(p) + Fields(l) + Fields(e)
    case _ => {}
  }

  function FieldsOfAll(nodes: seq<Node>): set<string> {
    if nodes == [] then {} else FieldsOfAll(nodes[..|nodes| - 1]) + Fields(nodes[|nodes| - 1])
  }

  /** t is node itself or below it, where branches, pipelines, operands and bodies go. */
  ghost predicate Within(t: Node, node: Node)
    decreases node
  {
    t == node ||
    match node
    case List(ns) => exists i :: 0 <= i < |ns| && Within(t, ns[i])
    case Action(p) => Within(t, p)
    case Pipe(cs) => exists i :: 0 <= i < |cs| && Within(t, cs[i])
    case Command(args) => exists i :: 0 <= i < |args| && Within(t, args[i])
    case Chain(n, _) => Within(t, n)
    case If(p, l, e) => Within(t, p) || Within(t, l) || Within(t, e)
    case Range(p, l, e) => Within(t, p) || Within(t, l) || Within(t, e)
    case With(p, l, e) => Within(t, p) || Within(t, l) || Within(t, e)
    case _ => false
  }

  predicate Names(t: Node, k: string) {
    t.Field? && t.ident != [] && t.ident[0] == k
  }

  lemma {:induction false} FieldAmong(nodes: seq<Node>, k: string)
    ensures k in FieldsOfAll(nodes) <==> exists i :: 0 <= i < |nodes| && k in Fields(nodes[i])
  {
    hide Fields;
    if nodes != [] {
      FieldAmong(nodes[..|nodes| - 1], k);
      if k in FieldsOfAll(nodes[..|nodes| - 1]) {
        var i :| 0 <= i < |nodes| - 1 && k in Fields(nodes[..|nodes| - 1][i]);
        assert k in Fields(nodes[i]);
      }
      if i :| 0 <= i < |nodes| - 1 && k in Fields(nodes[i]) {
        assert k in Fields(nodes[..|nodes| - 1][i]);
      }
    }
  }

  /** A name is collected if and only if some field reference below starts with it. */
  lemma {:induction false} FieldsAreReferences(node: Node, k: string)
    ensures k in Fields(node) <==> exists t :: Within(t, node) && Names(t, k)
    decreases node
  {
    hide FieldsOfAll;
    match node
    case List(ns) => ReferencesAmong(ns, k);
    case Action(p) => FieldsAreReferences(p, k);
    case Pipe(cs) => ReferencesAmong(cs, k);
    case Command(args) => ReferencesAmong(args, k);
    case Field(ident) =>
      assert Within(node, node);
    case Chain(n, _) => FieldsAreReferences(n, k);
    case If(p, l, e) =>
      FieldsAreReferences(p, k);
      FieldsAreReferences(l, k);
      FieldsAreReferences(e, k);
    case Range(p, l, e) =>
      FieldsAreReferences(p, k);
      FieldsAreReferences(l, k);
      FieldsAreReferences(e, k);
    case With(p, l, e) =>
      FieldsAreReferences(p, k);
      FieldsAreReferences(l, k);
      FieldsAreReferences(e, k);
    case _ =>
  }

  lemma {:induction false} ReferencesAmong(nodes: seq<Node>, k: string)
    ensures k in FieldsOfAll(nodes) <==> exists i, t :: 0 <= i < |nodes| && Within(t, nodes[i]) && Names(t, k)
    decreases nodes
  {
    hide Fields, Within, Names;
    FieldAmong(nodes, k);
    forall i | 0 <= i < |nodes|
      ensures k in Fields(nodes[i]) <==> exists t :: Within(t, nodes[i]) && Names(t, k)
    {
      FieldsAreReferences(nodes[i], k);
    }
  }

  class NameSet {
    var names: set<string>

    constructor ()
      ensures names == {}
    {
      names := {};
    }
  }

  method CollectAll(nodes: seq<Node>, into: NameSet)
    modifies into
    ensures into.names == old(into.names) + FieldsOfAll(nodes)
    decreases nodes
  {
    for i := 0 to |nodes|
      invariant into.names == old(into.names) + FieldsOfAll(nodes[..i])
    {
      CollectFieldNames(nodes[i], into);
      assert nodes[..i + 1][..i] == nodes[..i];
    }
    assert nodes[..|nodes|] == nodes;
  }

  /** Adds every field the template reads from the form to a shared set. */
  method CollectFieldNames(node: Node, into: NameSet)
    modifies into
    ensures into.names == old(into.names) + Fields(node)
    decreases node
  {
    match node
    case List(ns) => CollectAll(ns, into);
    case Action(p) => CollectFieldNames(p, into);
    case Pipe(cs) => CollectAll(cs, into);
    case Command(args) => CollectAll(args, into);
    case Field(ident) =>
      if |ident| > 0 {
        into.names := into.names + {ident[0]};
      }
    case Chain(n, _) => CollectFieldNames(n, into);
    case If(p, l, e) =>
      CollectFieldNames(p, into);
      CollectFieldNames(l, into);
      CollectFieldNames(e, into);
    case Range(p, l, e) =>
      CollectFieldNames(p, into);
      CollectFieldNames(l, into);
      CollectFieldNames(e, into);
    case With(p, l, e) =>
      CollectFieldNames(p, into);
      CollectFieldNames(l, into);
      CollectFieldNames(e, into);
    case _ =>
  }

  // --- Execution ---------------------------------------------------------------------------

  /** The form itself, a string from it, or anything else a library function may return. */
  datatype Value = Form(fields: map<string, string>) | Str(text: string) | Other(token: int)

  /** The template library: function calls, printing, truth, iteration, nested templates. */
  datatype Library = Library(
    call: (string, seq<Value>) -> Option<Value>,
    show: Value -> Option<string>,
    truth: Value -> bool,
    items: Value -> Option<seq<Value>>,
    nested: (string, Value) -> Option<string>)

  /** A missing field reads as the empty string. */
  function Lookup(m: map<string, string>, k: string): string {
    if k in m then m[k] else ""
  }

  /** Only the form has fields, and they are strings. */
  function FieldChain(v: Value, ident: seq<string>): Option<Value>
    decreases |ident|
  {
    if ident == [] then Some(v)
    else if v.Form? then FieldChain(Str(Lookup(v.fields, ident[0])), ident[1..])
    else None
  }

  /** The value of a node used as an operand; None is an execution error. */
  function Eval(lib: Library, node: Node, dot: Value, root: Value): Option<Value>
    decreases node
  {
    match node
    case Dot => Some(dot)
    case Root(fs) => FieldChain(root, fs)
    case Field(ident) => if ident == [] then None else FieldChain(dot, ident)
    case Chain(n, fs) =>
      var v := Eval(lib, n, dot, root);
      if v.None? then None else FieldChain(v.value, fs)
    case StringLit(s) => Some(Str(s))
    case NumberLit(n) => Some(Other(n))
    case Identifier(name) => lib.call(name, [])
    case Pipe(cmds) => EvalCommands(lib, cmds, None, dot, root)
    case _ => None
  }

  function EvalAll(lib: Library, nodes: seq<Node>, dot: Value, root: Value): Option<seq<Value>>
    decreases nodes
  {
    if nodes == [] then Some([])
    else
      var v, rest := Eval(lib, nodes[0], dot, root), EvalAll(lib, nodes[1..], dot, root);
      if v.None? || rest.None? then None else Some([v.value] + rest.value)
  }

  /** A command, given the value piped into it, if any. Only a function takes arguments. */
  function EvalCommand(lib: Library, cmd: Node, piped: Option<Value>, dot: Value, root: Value): Option<Value>
    decreases cmd
  {
    if !cmd.Command? || cmd.args == [] then None
    else if cmd.args[0].Identifier? then
      var args := EvalAll(lib, cmd.args[1..], dot, root);
      if args.None? then None
      else lib.call(cmd.args[0].name, args.value + if piped.Some? then [piped.value] else [])
    else if |cmd.args| > 1 || piped.Some? then None
    else Eval(lib, cmd.args[0], dot, root)
  }

  function EvalCommands(lib: Library, cmds: seq<Node>, piped: Option<Value>, dot: Value, root: Value): Option<Value>
    decreases cmds
  {
    if cmds == [] then piped
    else
      var v := EvalCommand(lib, cmds[0], piped, dot, root);
      if v.None? then None else EvalCommands(lib, cmds[1..], v, dot, root)
  }

  /** The text a node renders to; None is an execution error. */
  function Walk(lib: Library, node: Node, dot: Value, root: Value): Option<string>
    decreases node, 0
  {
    match node
    case List(ns) => WalkAll(lib, ns, dot, root)
    case Text(t) => Some(t)
    case Action(p) =>
      var v := Eval(lib, p, dot, root);
      if v.None? then None else lib.show(v.value)
    case If(p, l, e) =>
      var v := Eval(lib, p, dot, root);
      if v.None? then None
      else if lib.truth(v.value) then Walk(lib, l, dot, root)
      else Walk(lib, e, dot, root)
    case With(p, l, e) =>
      var v := Eval(lib, p, dot, root);
      if v.None? then None
      else if lib.truth(v.value) then Walk(lib, l, v.value, root)
      else Walk(lib, e, dot, root)
    case Range(p, l, e) =>
      var v := Eval(lib, p, dot, root);
      if v.None? then None
      else
        var items := lib.items(v.value);
        if items.None? then None
        else if items.value == [] then Walk(lib, e, dot, root)
        else WalkEach(lib, l, items.value, root)
    case Nested(name, p) =>
      var v := Eval(lib, p, dot, root);
      if v.None? then None else lib.nested(name, v.value)
    case Absent => Some("")
    case _ => None
  }

  function WalkAll(lib: Library, nodes: seq<Node>, dot: Value, root: Value): Option<string>
    decreases nodes, 0
  {
    if nodes == [] then Some("")
    else
      var first, rest := Walk(lib, nodes[0], dot, root), WalkAll(lib, nodes[1..], dot, root);
      if first.None? || rest.None? then None else Some(first.value + rest.value)
  }

  function WalkEach(lib: Library, body: Node, items: seq<Value>, root: Value): Option<string>
    decreases body, |items| + 1
  {
    if items == [] then Some("")
    else
      var first, rest := Walk(lib, body, items[0], root), WalkEach(lib, body, items[1..], root);
      if first.None? || rest.None? then None else Some(first.value + rest.value)
  }

  /** A template executed on a form: dot and $ are the form. */
  function Execute(lib: Library, tpl: Node, form: map<string, string>): Option<string> {
    Walk(lib, tpl, Form(form), Form(form))
  }

  // --- Soundness ------------------------------------------------------------------------------

  predicate Agree(f: map<string, string>, g: map<string, string>, names: set<string>) {
    forall k <- names :: Lookup(f, k) == Lookup(g, k)
  }

  /** Forms that agree on these names render the template to the same text, or fail on it
      alike. */
  ghost predicate Decides(lib: Library, tpl: Node, names: set<string>) {
    forall f, g :: Agree(f, g, names) ==> Execute(lib, tpl, f) == Execute(lib, tpl, g)
  }

  /** The operand is the form itself: $, or dot while dot is the form. */
  predicate WholeForm(node: Node, atRoot: bool) {
    match node
    case Dot => atRoot
    case Root(fs) => fs == []
    case Pipe(cs) => |cs| == 1 && cs[0].Command? && |cs[0].args| == 1 && WholeForm(cs[0].args[0], atRoot)
    case _ => false
  }

  /** A field chain on the form reads a known name, or fails whatever the form: its first
      field is a string, which has no fields. */
  predicate SafeChain(ident: seq<string>, names: set<string>) {
    |ident| > 1 || (ident != [] && ident[0] in names)
  }

  /** Nothing is read from the form but known names: neither the whole form nor, by dot or by
      $, another field. Nested templates are handed safe values. */
  predicate Safe(node: Node, atRoot: bool, names: set<string>) {
    match node
    case List(ns) => AllSafe(ns, atRoot, names)
    case Action(p) => Safe(p, atRoot, names)
    case Pipe(cs) => AllSafe(cs, atRoot, names)
    case Command(args) => AllSafe(args, atRoot, names)
    case Field(ident) => ident == [] || !atRoot || SafeChain(ident, names)
    case Root(fs) => SafeChain(fs, names)
    case Chain(n, fs) => Safe(n, atRoot, names) || (WholeForm(n, atRoot) && SafeChain(fs, names))
    case If(p, l, e) => Safe(p, atRoot, names) && Safe(l, atRoot, names) && Safe(e, atRoot, names)
    case Range(p, l, e) => Safe(p, atRoot, names) && Safe(l, false, names) && Safe(e, atRoot, names)
    case With(p, l, e) => Safe(p, atRoot, names) && Safe(l, false, names) && Safe(e, atRoot, names)
    case Dot => !atRoot
    case Nested(_, p) => Safe(p, atRoot, names)
    case _ => true
  }

  predicate AllSafe(nodes: seq<Node>, atRoot: bool, names: set<string>) {
    nodes == [] || (AllSafe(nodes[..|nodes| - 1], atRoot, names) && Safe(nodes[|nodes| - 1], atRoot, names))
  }

  lemma {:induction false} EachSafe(nodes: seq<Node>, atRoot: bool, names: set<string>)
    ensures AllSafe(nodes, atRoot, names) <==> forall i :: 0 <= i < |nodes| ==> Safe(nodes[i], atRoot, names)
  {
    hide Safe;
    if nodes != [] {
      EachSafe(nodes[..|nodes| - 1], atRoot, names);
    }
  }

  predicate NoForm(vs: seq<Value>) {
    forall i :: 0 <= i < |vs| ==> !vs[i].Form?
  }

  /** Library functions make no form out of values that are none. */
  ghost predicate LibraryOk(lib: Library) {
    && (forall name, args :: NoForm(args) && lib.call(name, args).Some? ==> !lib.call(name, args).value.Form?)
    && (forall v: Value :: !v.Form? && lib.items(v).Some? ==> NoForm(lib.items(v).value))
  }

  /** Two runs at the same point, on forms that agree on the names: dot is the whole form in
      both, or the same value, not a form. */
  predicate Alike(f: Value, g: Value, d: Value, e: Value, atRoot: bool, names: set<string>) {
    && f.Form? && g.Form? && Agree(f.fields, g.fields, names)
    && if atRoot then d == f && e == g else d == e && !d.Form?
  }

  predicate NotForm(v: Option<Value>) {
    v.Some? ==> !v.value.Form?
  }

  lemma {:induction false} ChainPlain(v: Value, ident: seq<string>)
    requires !v.Form? || ident != []
    ensures NotForm(FieldChain(v, ident))
    decreases |ident|
  {
    if ident != [] && v.Form? {
      ChainPlain(Str(Lookup(v.fields, ident[0])), ident[1..]);
    }
  }

  /** A chain on the form is one look-up, or fails. */
  lemma {:induction false} ChainOnForm(m: map<string, string>, ident: seq<string>)
    requires ident != []
    ensures FieldChain(Form(m), ident) == if |ident| > 1 then None else Some(Str(Lookup(m, ident[0])))
  {
    var v := Str(Lookup(m, ident[0]));
    assert FieldChain(Form(m), ident) == FieldChain(v, ident[1..]);
    if |ident| == 1 {
      assert ident[1..] == [] && FieldChain(v, []) == Some(v);
    }
  }

  lemma {:induction false} ChainSame(f: Value, g: Value, ident: seq<string>, names: set<string>)
    requires f.Form? && g.Form? && Agree(f.fields, g.fields, names) && SafeChain(ident, names)
    ensures FieldChain(f, ident) == FieldChain(g, ident) && NotForm(FieldChain(f, ident))
  {
    hide FieldChain;
    ChainOnForm(f.fields, ident);
    ChainOnForm(g.fields, ident);
  }

  lemma {:induction false} WholeFormIs(lib: Library, node: Node, d: Value, f: Value, atRoot: bool)
    requires WholeForm(node, atRoot) && (atRoot ==> d == f)
    ensures Eval(lib, node, d, f) == Some(f)
    decreases node
  {
    if node.Pipe? {
      var command := node.cmds[0];
      WholeFormIs(lib, command.args[0], d, f, atRoot);
      assert EvalCommand(lib, command, None, d, f) == Some(f);
      assert node.cmds[1..] == [];
      assert EvalCommands(lib, node.cmds, None, d, f) == EvalCommands(lib, [], Some(f), d, f);
    }
  }

  lemma {:induction false} EvalSame(lib: Library, node: Node, d: Value, f: Value, e: Value, g: Value,
                                    atRoot: bool, names: set<string>)
    requires LibraryOk(lib) && Safe(node, atRoot, names) && Alike(f, g, d, e, atRoot, names)
    ensures Eval(lib, node, d, f) == Eval(lib, node, e, g) && NotForm(Eval(lib, node, d, f))
    decreases node
  {
    hide LibraryOk, AllSafe, FieldChain, Agree, SafeChain, WholeForm, EvalCommands;
    match node
    case Field(ident) =>
      if ident != [] {
        if atRoot {
          ChainSame(f, g, ident, names);
        } else {
          ChainPlain(d, ident);
        }
      }
    case Root(fs) =>
      ChainSame(f, g, fs, names);
    case Chain(n, fs) =>
      if Safe(n, atRoot, names) {
        EvalSame(lib, n, d, f, e, g, atRoot, names);
        if Eval(lib, n, d, f).Some? {
          ChainPlain(Eval(lib, n, d, f).value, fs);
        }
      } else {
        WholeFormIs(lib, n, d, f, atRoot);
        WholeFormIs(lib, n, e, g, atRoot);
        ChainSame(f, g, fs, names);
      }
    case Identifier(name) =>
      CallPlain(lib, name, []);
    case Pipe(cmds) =>
      EachSafe(cmds, atRoot, names);
      CommandsSame(lib, cmds, None, d, f, e, g, atRoot, names);
    case _ =>
  }

  lemma CallPlain(lib: Library, name: string, args: seq<Value>)
    requires LibraryOk(lib) && NoForm(args)
    ensures NotForm(lib.call(name, args))
  {
  }

  lemma {:induction false} EvalAllSame(lib: Library, nodes: seq<Node>, d: Value, f: Value, e: Value, g: Value,
                                       atRoot: bool, names: set<string>)
    requires LibraryOk(lib) && Alike(f, g, d, e, atRoot, names)
    requires forall i :: 0 <= i < |nodes| ==> Safe(nodes[i], atRoot, names)
    ensures EvalAll(lib, nodes, d, f) == EvalAll(lib, nodes, e, g)
    ensures EvalAll(lib, nodes, d, f).Some? ==> NoForm(EvalAll(lib, nodes, d, f).value)
    decreases nodes
  {
    hide LibraryOk, Safe, Agree, Eval;
    if nodes != [] {
      EvalSame(lib, nodes[0], d, f, e, g, atRoot, names);
      EvalAllSame(lib, nodes[1..], d, f, e, g, atRoot, names);
    }
  }

  lemma {:induction false} CommandSame(lib: Library, cmd: Node, piped: Option<Value>,
                                       d: Value, f: Value, e: Value, g: Value, atRoot: bool, names: set<string>)
    requires LibraryOk(lib) && Alike(f, g, d, e, atRoot, names) && NotForm(piped) && Safe(cmd, atRoot, names)
    ensures EvalCommand(lib, cmd, piped, d, f) == EvalCommand(lib, cmd, piped, e, g)
    ensures NotForm(EvalCommand(lib, cmd, piped, d, f))
    decreases cmd
  {
    hide LibraryOk, Eval, AllSafe, Agree;
    if cmd.Command? && cmd.args != [] {
      EachSafe(cmd.args, atRoot, names);
      if cmd.args[0].Identifier? {
        EvalAllSame(lib, cmd.args[1..], d, f, e, g, atRoot, names);
        var args := EvalAll(lib, cmd.args[1..], d, f);
        if args.Some? {
          CallPlain(lib, cmd.args[0].name, args.value + if piped.Some? then [piped.value] else []);
        }
      } else {
        EvalSame(lib, cmd.args[0], d, f, e, g, atRoot, names);
      }
    }
  }

  lemma {:induction false} CommandsSame(lib: Library, cmds: seq<Node>, piped: Option<Value>,
                                        d: Value, f: Value, e: Value, g: Value, atRoot: bool, names: set<string>)
    requires LibraryOk(lib) && Alike(f, g, d, e, atRoot, names) && NotForm(piped)
    requires forall i :: 0 <= i < |cmds| ==> Safe(cmds[i], atRoot, names)
    ensures EvalCommands(lib, cmds, piped, d, f) == EvalCommands(lib, cmds, piped, e, g)
    ensures NotForm(EvalCommands(lib, cmds, piped, d, f))
    decreases cmds
  {
    hide LibraryOk, EvalCommand, Safe, Agree;
    if cmds != [] {
      CommandSame(lib, cmds[0], piped, d, f, e, g, atRoot, names);
      CommandsSame(lib, cmds[1..], EvalCommand(lib, cmds[0], piped, d, f), d, f, e, g, atRoot, names);
    }
  }

  lemma {:induction false} WalkSame(lib: Library, node: Node, d: Value, f: Value, e: Value, g: Value,
                                    atRoot: bool, names: set<string>)
    requires LibraryOk(lib) && Safe(node, atRoot, names) && Alike(f, g, d, e, atRoot, names)
    ensures Walk(lib, node, d, f) == Walk(lib, node, e, g)
    decreases node, 0
  {
    hide LibraryOk, AllSafe, Agree, SafeChain, WholeForm, Eval, WalkAll, WalkEach;
    match node
    case List(ns) =>
      EachSafe(ns, atRoot, names);
      WalkAllSame(lib, ns, d, f, e, g, atRoot, names);
    case Action(p) =>
      EvalSame(lib, p, d, f, e, g, atRoot, names);
    case Nested(_, p) =>
      EvalSame(lib, p, d, f, e, g, atRoot, names);
    case If(p, l, el) =>
      EvalSame(lib, p, d, f, e, g, atRoot, names);
      WalkSame(lib, l, d, f, e, g, atRoot, names);
      WalkSame(lib, el, d, f, e, g, atRoot, names);
    case With(p, l, el) =>
      EvalSame(lib, p, d, f, e, g, atRoot, names);
      var v := Eval(lib, p, d, f);
      if v.Some? {
        WalkSame(lib, l, v.value, f, v.value, g, false, names);
      }
      WalkSame(lib, el, d, f, e, g, atRoot, names);
    case Range(p, l, el) =>
      EvalSame(lib, p, d, f, e, g, atRoot, names);
      var v := Eval(lib, p, d, f);
      if v.Some? && lib.items(v.value).Some? {
        ItemsPlain(lib, v.value);
        WalkEachSame(lib, l, lib.items(v.value).value, f, g, names);
      }
      WalkSame(lib, el, d, f, e, g, atRoot, names);
    case _ =>
  }

  lemma ItemsPlain(lib: Library, v: Value)
    requires LibraryOk(lib) && !v.Form? && lib.items(v).Some?
    ensures NoForm(lib.items(v).value)
  {
  }

  lemma {:induction false} WalkAllSame(lib: Library, nodes: seq<Node>, d: Value, f: Value, e: Value, g: Value,
                                       atRoot: bool, names: set<string>)
    requires LibraryOk(lib) && Alike(f, g, d, e, atRoot, names)
    requires forall i :: 0 <= i < |nodes| ==> Safe(nodes[i], atRoot, names)
    ensures WalkAll(lib, nodes, d, f) == WalkAll(lib, nodes, e, g)
    decreases nodes, 0
  {
    hide LibraryOk, Walk, Safe, Agree;
    if nodes != [] {
      WalkSame(lib, nodes[0], d, f, e, g, atRoot, names);
      WalkAllSame(lib, nodes[1..], d, f, e, g, atRoot, names);
    }
  }

  lemma {:induction false} WalkEachSame(lib: Library, body: Node, items: seq<Value>, f: Value, g: Value, names: set<string>)
    requires LibraryOk(lib) && Safe(body, false, names) && NoForm(items)
    requires f.Form? && g.Form? && Agree(f.fields, g.fields, names)
    ensures WalkEach(lib, body, items, f) == WalkEach(lib, body, items, g)
    decreases body, |items| + 1
  {
    hide LibraryOk, Walk, Safe, Agree;
    if items != [] {
      WalkSame(lib, body, items[0], f, items[0], g, false, names);
      WalkEachSame(lib, body, items[1..], f, g, names);
    }
  }

  /** The names a template is safe for decide its text. */
  lemma {:induction false} NamesAreEnough(lib: Library, tpl: Node, names: set<string>)
    requires LibraryOk(lib) && Safe(tpl, true, names)
    ensures Decides(lib, tpl, names)
  {
    hide LibraryOk, Safe, Agree, Walk;
    forall f, g | Agree(f, g, names) ensures Execute(lib, tpl, f) == Execute(lib, tpl, g) {
      WalkSame(lib, tpl, Form(f), Form(f), Form(g), Form(g), true, names);
    }
  }

  // --- What the walk's own names are enough for ---------------------------------------------

  /** No bare dot while dot is the whole form, no $, and no nested template. */
  predicate Ordinary(node: Node, atRoot: bool) {
    match node
    case List(ns) => AllOrdinary(ns, atRoot)
    case Action(p) => Ordinary(p, atRoot)
    case Pipe(cs) => AllOrdinary(cs, atRoot)
    case Command(args) => AllOrdinary(args, atRoot)
    case Chain(n, _) => Ordinary(n, atRoot)
    case If(p, l, e) => Ordinary(p, atRoot) && Ordinary(l, atRoot) && Ordinary(e, atRoot)
    case Range(p, l, e) => Ordinary(p, atRoot) && Ordinary(l, false) && Ordinary(e, atRoot)
    case With(p, l, e) => Ordinary(p, atRoot) && Ordinary(l, false) && Ordinary(e, atRoot)
    case Dot => !atRoot
    case Root(_) => false
    case Nested(_, _) => false
    case _ => true
  }

  predicate AllOrdinary(nodes: seq<Node>, atRoot: bool) {
    nodes == [] || (AllOrdinary(nodes[..|nodes| - 1], atRoot) && Ordinary(nodes[|nodes| - 1], atRoot))
  }

  lemma {:induction false} OrdinaryIsSafe(node: Node, atRoot: bool, names: set<string>)
    requires Ordinary(node, atRoot) && Fields(node) <= names
    ensures Safe(node, atRoot, names)
    decreases node
  {
    hide AllSafe, AllOrdinary, FieldsOfAll, WholeForm;
    match node
    case List(ns) => AllOrdinarySafe(ns, atRoot, names);
    case Action(p) => OrdinaryIsSafe(p, atRoot, names);
    case Pipe(cs) => AllOrdinarySafe(cs, atRoot, names);
    case Command(args) => AllOrdinarySafe(args, atRoot, names);
    case Chain(n, _) => OrdinaryIsSafe(n, atRoot, names);
    case If(p, l, e) =>
      OrdinaryIsSafe(p, atRoot, names);
      OrdinaryIsSafe(l, atRoot, names);
      OrdinaryIsSafe(e, atRoot, names);
    case Range(p, l, e) =>
      OrdinaryIsSafe(p, atRoot, names);
      OrdinaryIsSafe(l, false, names);
      OrdinaryIsSafe(e, atRoot, names);
    case With(p, l, e) =>
      OrdinaryIsSafe(p, atRoot, names);
      OrdinaryIsSafe(l, false, names);
      OrdinaryIsSafe(e, atRoot, names);
    case _ =>
  }

  lemma {:induction false} AllOrdinarySafe(nodes: seq<Node>, atRoot: bool, names: set<string>)
    requires AllOrdinary(nodes, atRoot) && FieldsOfAll(nodes) <= names
    ensures AllSafe(nodes, atRoot, names)
    decreases nodes
  {
    hide Ordinary, Safe, Fields;
    if nodes != [] {
      AllOrdinarySafe(nodes[..|nodes| - 1], atRoot, names);
      OrdinaryIsSafe(nodes[|nodes| - 1], atRoot, names);
    }
  }

  /** For ordinary templates the names the walk collects decide the text. */
  lemma {:induction false} FieldsAreEnough(lib: Library, tpl: Node)
    requires LibraryOk(lib) && Ordinary(tpl, true)
    ensures Safe(tpl, true, Fields(tpl)) && Decides(lib, tpl, Fields(tpl))
  {
    OrdinaryIsSafe(tpl, true, Fields(tpl));
    NamesAreEnough(lib, tpl, Fields(tpl));
  }

  // --- Exactly what straight-line templates need ----------------------------------------------

  /** {{.a.b}} or {{$.a.b}}. */
  predicate IsRead(node: Node) {
    && node.Action? && node.pipe.Pipe? && |node.pipe.cmds| == 1
    && node.pipe.cmds[0].Command? && |node.pipe.cmds[0].args| == 1
    && var operand := node.pipe.cmds[0].args[0];
       (operand.Field? && operand.ident != []) || (operand.Root? && operand.fields != [])
  }

  function ReadBy(node: Node): (ident: seq<string>)
    requires IsRead(node)
    ensures ident != []
  {
    var operand := node.pipe.cmds[0].args[0];
    if operand.Field? then operand.ident else operand.fields
  }

  /** Text and reads, one after the other. */
  predicate StraightLine(nodes: seq<Node>) {
    forall i :: 0 <= i < |nodes| ==> nodes[i].Text? || IsRead(nodes[i])
  }

  /** Some read goes on to a field of a string, which always fails. */
  predicate AlwaysFails(nodes: seq<Node>)
    requires StraightLine(nodes)
  {
    exists i :: 0 <= i < |nodes| && IsRead(nodes[i]) && |ReadBy(nodes[i])| > 1
  }

  predicate ReadsOnly(nodes: seq<Node>, names: set<string>)
    requires StraightLine(nodes)
  {
    forall i :: 0 <= i < |nodes| && IsRead(nodes[i]) ==> ReadBy(nodes[i])[0] in names
  }

  lemma {:induction false} ReadIs(lib: Library, node: Node, form: map<string, string>)
    requires IsRead(node) && forall s :: lib.show(Str(s)) == Some(s)
    ensures Walk(lib, node, Form(form), Form(form))
         == if |ReadBy(node)| > 1 then None else Some(Lookup(form, ReadBy(node)[0]))
  {
    hide FieldChain;
    var f := Form(form);
    ChainOnForm(form, ReadBy(node));
    var command := node.pipe.cmds[0];
    var v := EvalCommand(lib, command, None, f, f);
    assert Eval(lib, command.args[0], f, f) == FieldChain(f, ReadBy(node));
    assert v == FieldChain(f, ReadBy(node));
    assert node.pipe.cmds[1..] == [];
    assert EvalCommands(lib, node.pipe.cmds, None, f, f) == v;
  }

  /** A straight-line template filled in: its text, with each read's field in its place. */
  function Filled(nodes: seq<Node>, form: map<string, string>): string
    requires StraightLine(nodes)
  {
    if nodes == [] then ""
    else (if nodes[0].Text? then nodes[0].text else Lookup(form, ReadBy(nodes[0])[0])) + Filled(nodes[1..], form)
  }

  /** A straight-line template renders to its text filled in, or always fails. */
  lemma {:induction false} LineRenders(lib: Library, nodes: seq<Node>, form: map<string, string>)
    requires StraightLine(nodes) && forall s :: lib.show(Str(s)) == Some(s)
    ensures var text := WalkAll(lib, nodes, Form(form), Form(form));
            if AlwaysFails(nodes) then text.None?
            else text == Some(Filled(nodes, form))
  {
    hide IsRead, ReadBy, Lookup;
    if nodes != [] {
      LineRenders(lib, nodes[1..], form);
      FirstWalk(lib, nodes[0], form);
      FailsStep(nodes);
      TextReadsNothing(nodes[0]);
    }
  }

  lemma {:induction false} FirstWalk(lib: Library, node: Node, form: map<string, string>)
    requires (node.Text? || IsRead(node)) && forall s :: lib.show(Str(s)) == Some(s)
    ensures Walk(lib, node, Form(form), Form(form))
         == if node.Text? then Some(node.text)
            else if |ReadBy(node)| > 1 then None else Some(Lookup(form, ReadBy(node)[0]))
  {
    if !node.Text? {
      hide Walk, Lookup;
      ReadIs(lib, node, form);
    }
  }

  lemma FailsStep(nodes: seq<Node>)
    requires nodes != [] && StraightLine(nodes)
    ensures StraightLine(nodes[1..])
    ensures AlwaysFails(nodes) <==> (IsRead(nodes[0]) && |ReadBy(nodes[0])| > 1) || AlwaysFails(nodes[1..])
  {
    hide IsRead, ReadBy;
    if AlwaysFails(nodes) {
      var i :| 0 <= i < |nodes| && IsRead(nodes[i]) && |ReadBy(nodes[i])| > 1;
      if i > 0 {
        assert nodes[1..][i - 1] == nodes[i];
      }
    }
    if AlwaysFails(nodes[1..]) {
      var i :| 0 <= i < |nodes[1..]| && IsRead(nodes[1..][i]) && |ReadBy(nodes[1..][i])| > 1;
      assert nodes[i + 1] == nodes[1..][i];
    }
  }

  lemma {:induction false} LongerOn(nodes: seq<Node>, name: string)
    requires StraightLine(nodes)
    ensures |Filled(nodes, map[])| <= |Filled(nodes, map[name := "a"])|
    ensures (exists i :: 0 <= i < |nodes| && IsRead(nodes[i]) && ReadBy(nodes[i])[0] == name)
              ==> |Filled(nodes, map[])| < |Filled(nodes, map[name := "a"])|
  {
    hide IsRead, ReadBy;
    if nodes != [] {
      LongerOn(nodes[1..], name);
      TextReadsNothing(nodes[0]);
      if i :| 1 <= i < |nodes| && IsRead(nodes[i]) && ReadBy(nodes[i])[0] == name {
        assert nodes[1..][i - 1] == nodes[i];
      }
    }
  }

  lemma TextReadsNothing(node: Node)
    ensures node.Text? ==> !IsRead(node)
  {
  }

  lemma {:induction false} LineSame(lib: Library, nodes: seq<Node>, f: map<string, string>, g: map<string, string>,
                                    names: set<string>)
    requires StraightLine(nodes) && ReadsOnly(nodes, names) && Agree(f, g, names)
    requires forall s :: lib.show(Str(s)) == Some(s)
    ensures WalkAll(lib, nodes, Form(f), Form(f)) == WalkAll(lib, nodes, Form(g), Form(g))
  {
    hide IsRead, ReadBy, Walk, Lookup;
    if nodes != [] {
      FirstWalk(lib, nodes[0], f);
      FirstWalk(lib, nodes[0], g);
      assert forall i :: 0 <= i < |nodes[1..]| ==> nodes[1..][i] == nodes[i + 1];
      LineSame(lib, nodes[1..], f, g, names);
    }
  }

  /** Names decide a straight-line template if and only if it reads, by dot or by $, nothing
      else, or always fails. */
  lemma StraightLineIff(lib: Library, nodes: seq<Node>, names: set<string>)
    requires StraightLine(nodes) && forall s :: lib.show(Str(s)) == Some(s)
    ensures Decides(lib, List(nodes), names) <==> AlwaysFails(nodes) || ReadsOnly(nodes, names)
  {
    hide IsRead, ReadBy, StraightLine, WalkAll, Filled, Lookup, Agree;
    if AlwaysFails(nodes) || ReadsOnly(nodes, names) {
      forall f, g | Agree(f, g, names) ensures Execute(lib, List(nodes), f) == Execute(lib, List(nodes), g) {
        LineRenders(lib, nodes, f);
        LineRenders(lib, nodes, g);
        if ReadsOnly(nodes, names) {
          LineSame(lib, nodes, f, g, names);
        }
      }
    } else {
      var i :| 0 <= i < |nodes| && IsRead(nodes[i]) && ReadBy(nodes[i])[0] !in names;
      var x := ReadBy(nodes[i])[0];
      LineRenders(lib, nodes, map[]);
      LineRenders(lib, nodes, map[x := "a"]);
      LongerOn(nodes, x);
      OtherNamesAgree(x, names);
      assert Execute(lib, List(nodes), map[]) != Execute(lib, List(nodes), map[x := "a"]);
    }
  }

  lemma OtherNamesAgree(x: string, names: set<string>)
    requires x !in names
    ensures Agree(map[], map[x := "a"], names)
  {
  }

  // --- What the walk misses ----------------------------------------------------------------------

  /** {{operand}}: one action holding one operand. */
  function Shown(operand: Node): Node {
    List([Action(Pipe([Command([operand])]))])
  }

  lemma {:induction false} FieldsOfOne(node: Node)
    ensures FieldsOfAll([node]) == Fields(node)
  {
    assert [node][..0] == [];
    assert FieldsOfAll([node]) == FieldsOfAll([]) + Fields(node);
  }

  lemma {:induction false} OperandIs(lib: Library, operand: Node, f: Value)
    requires !operand.Identifier?
    ensures Eval(lib, Pipe([Command([operand])]), f, f) == Eval(lib, operand, f, f)
  {
    var command := Command([operand]);
    var v := EvalCommand(lib, command, None, f, f);
    assert v == Eval(lib, operand, f, f);
    assert [command][1..] == [] && EvalCommands(lib, [command], None, f, f) == v;
  }

  lemma {:induction false} ShownIs(lib: Library, operand: Node, form: map<string, string>)
    requires !operand.Identifier?
    ensures Fields(Shown(operand)) == Fields(operand)
    ensures var v := Eval(lib, operand, Form(form), Form(form));
            Execute(lib, Shown(operand), form) == if v.None? then None else lib.show(v.value)
  {
    hide Eval, Fields;
    var f := Form(form);
    var action := Action(Pipe([Command([operand])]));
    ShownFields(operand);
    OperandIs(lib, operand, f);
    var text := Walk(lib, action, f, f);
    assert [action][1..] == [];
    assert WalkAll(lib, [action], f, f) == if text.None? then None else Some(text.value + "");
    assert text.Some? ==> text.value + "" == text.value;
  }

  lemma {:induction false} ShownFields(operand: Node)
    ensures Fields(Shown(operand)) == Fields(operand)
  {
    FieldsOfOne(operand);
    FieldsOfOne(Command([operand]));
    FieldsOfOne(Action(Pipe([Command([operand])])));
  }

  /** $.name reads a field the walk does not collect. */
  lemma DollarEscapesTheWalk(lib: Library, name: string)
    requires forall s :: lib.show(Str(s)) == Some(s)
    ensures Fields(Shown(Root([name]))) == {}
    ensures Execute(lib, Shown(Root([name])), map[name := "a"]) != Execute(lib, Shown(Root([name])), map[name := "b"])
  {
    hide Shown, Execute, FieldChain;
    ShownIs(lib, Root([name]), map[name := "a"]);
    ShownIs(lib, Root([name]), map[name := "b"]);
    ChainOnForm(map[name := "a"], [name]);
    ChainOnForm(map[name := "b"], [name]);
  }

  /** {{$.a}} is decided by exactly the sets of names that hold a, collected or reserved;
      {{$.a.b}} always fails. */
  lemma RootReadsIff(lib: Library, fields: seq<string>, names: set<string>)
    requires fields != [] && forall s :: lib.show(Str(s)) == Some(s)
    ensures Decides(lib, Shown(Root(fields)), names) <==> |fields| > 1 || fields[0] in names
  {
    hide Decides;
    var read := Action(Pipe([Command([Root(fields)])]));
    assert IsRead(read) && ReadBy(read) == fields;
    StraightLineIff(lib, [read], names);
    assert AlwaysFails([read]) <==> |fields| > 1 by {
      if |fields| > 1 {
        assert [read][0] == read && IsRead([read][0]);
      }
    }
    assert ReadsOnly([read], names) <==> fields[0] in names by {
      assert [read][0] == read && IsRead([read][0]);
    }
  }

  /** A bare dot shows the whole form and collects nothing. */
  lemma DotEscapesTheWalk(lib: Library, name: string)
    requires lib.show(Form(map[name := "a"])) != lib.show(Form(map[name := "b"]))
    ensures Fields(Shown(Dot)) == {}
    ensures Execute(lib, Shown(Dot), map[name := "a"]) != Execute(lib, Shown(Dot), map[name := "b"])
  {
    hide Shown, Execute;
    ShownIs(lib, Dot, map[name := "a"]);
    ShownIs(lib, Dot, map[name := "b"]);
  }

  /** {{template}} is not entered, not even its argument: {{template "t" .name}} is decided by
      exactly the sets of names that hold `name`, and collects nothing. */
  lemma NestedEscapesTheWalk(lib: Library, template: string, name: string, names: set<string>)
    requires forall s :: lib.nested(template, Str(s)) == Some(s)
    ensures var tpl := Nested(template, Pipe([Command([Field([name])])]));
            && Fields(tpl) == {} && (Decides(lib, tpl, names) <==> name in names)
            && Execute(lib, tpl, map[name := "a"]) != Execute(lib, tpl, map[name := "b"])
  {
    hide FieldChain, Agree, Eval;
    var tpl := Nested(template, Pipe([Command([Field([name])])]));
    forall m ensures Execute(lib, tpl, m) == Some(Lookup(m, name)) {
      OperandIs(lib, Field([name]), Form(m));
      FieldIs(lib, m, name);
    }
    if name in names {
      forall f, g | Agree(f, g, names) ensures Lookup(f, name) == Lookup(g, name) {
        AgreeOn(f, g, names, name);
      }
    } else {
      OtherNamesAgree(name, names);
      assert Execute(lib, tpl, map[]) != Execute(lib, tpl, map[name := "a"]);
    }
  }

  lemma {:induction false} FieldIs(lib: Library, m: map<string, string>, name: string)
    ensures Eval(lib, Field([name]), Form(m), Form(m)) == Some(Str(Lookup(m, name)))
  {
    hide FieldChain;
    ChainOnForm(m, [name]);
  }

  lemma AgreeOn(f: map<string, string>, g: map<string, string>, names: set<string>, name: string)
    requires Agree(f, g, names) && name in names
    ensures Lookup(f, name) == Lookup(g, name)
  {
  }

  /** Being safe is not needed where the unsafe part is never reached. */
  lemma DeadBranchIsDecided(lib: Library, name: string)
    requires !lib.truth(Str(""))
    ensures var tpl := If(StringLit(""), Shown(Root([name])), Absent);
            !Safe(tpl, true, {}) && Decides(lib, tpl, {})
  {
    hide WholeForm;
    var tpl := If(StringLit(""), Shown(Root([name])), Absent);
    EachSafe([Root([name])], true, {});
    assert [Root([name])][0] == Root([name]);
    EachSafe([Command([Root([name])])], true, {});
    assert [Command([Root([name])])][0] == Command([Root([name])]);
    var action := Action(Pipe([Command([Root([name])])]));
    EachSafe([action], true, {});
    assert [action][0] == action;
    forall f ensures Execute(lib, tpl, f) == Some("") {
      assert Eval(lib, StringLit(""), Form(f), Form(f)) == Some(Str(""));
      assert Walk(lib, Absent, Form(f), Form(f)) == Some("");
    }
  }

  // --- What the block nodes render to ----------------------------------------------------------------

  /** {{.}}. */
  function ShowDot(): Node {
    Action(Pipe([Command([Dot])]))
  }

  /** The values shown one after the other; None as soon as one cannot be. */
  function ShowEach(lib: Library, values: seq<Value>): Option<string> {
    if values == [] then Some("")
    else match (lib.show(values[0]), ShowEach(lib, values[1..]))
      case (Some(first), Some(rest)) => Some(first + rest)
      case _ => None
  }

  lemma {:induction false} DotIs(lib: Library, dot: Value, root: Value)
    ensures Walk(lib, ShowDot(), dot, root) == lib.show(dot)
  {
    var command := Command([Dot]);
    assert Eval(lib, Dot, dot, root) == Some(dot);
    assert EvalCommand(lib, command, None, dot, root) == Some(dot);
    assert [command][1..] == [];
    assert EvalCommands(lib, [command], None, dot, root) == Some(dot);
  }

  lemma {:induction false} EachDot(lib: Library, items: seq<Value>, root: Value)
    ensures WalkEach(lib, ShowDot(), items, root) == ShowEach(lib, items)
  {
    hide Walk;
    if items != [] {
      DotIs(lib, items[0], root);
      EachDot(lib, items[1..], root);
    }
  }

  lemma {:induction false} ReadPipe(lib: Library, name: string, form: map<string, string>)
    ensures Eval(lib, Pipe([Command([Field([name])])]), Form(form), Form(form)) == Some(Str(Lookup(form, name)))
  {
    var f, operand := Form(form), Field([name]);
    assert [name][1..] == [];
    assert FieldChain(Str(Lookup(form, name)), []) == Some(Str(Lookup(form, name)));
    assert Eval(lib, operand, f, f) == FieldChain(f, [name]) == Some(Str(Lookup(form, name)));
    OperandIs(lib, operand, f);
  }

  /** On one field of the form: an if takes its first list exactly when the field is true, a with
      makes the field the dot of its first list, and a range makes each item the dot in turn, or
      takes its else list when there are none. */
  lemma {:induction false} BlocksRender(lib: Library, name: string, form: map<string, string>, yes: string, no: string)
    requires forall s :: lib.show(Str(s)) == Some(s)
    ensures var read, value := Pipe([Command([Field([name])])]), Str(Lookup(form, name));
            && Execute(lib, If(read, Text(yes), Text(no)), form) == Some(if lib.truth(value) then yes else no)
            && Execute(lib, With(read, ShowDot(), Text(no)), form)
               == Some(if lib.truth(value) then Lookup(form, name) else no)
            && Execute(lib, Range(read, ShowDot(), Text(no)), form) == match lib.items(value) {
                 case None => None
                 case Some(items) => if items == [] then Some(no) else ShowEach(lib, items)
               }
  {
    hide Lookup, Eval;
    ReadPipe(lib, name, form);
    var value, f := Str(Lookup(form, name)), Form(form);
    assert Walk(lib, Text(yes), f, f) == Some(yes) && Walk(lib, Text(no), f, f) == Some(no);
    DotIs(lib, value, f);
    if lib.items(value).Some? {
      EachDot(lib, lib.items(value).value, f);
    }
  }
}
