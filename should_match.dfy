/**
 The `should_match!` macro: it rewrites a zero-argument function definition, a pattern and
 an optional message literal into a function with the same attributes, visibility and name
 that runs the original body as a nested `inner` function, tests the result against the
 pattern and asserts, failing with the caller's message or with a synthesized one.

 `Expand` is the rewrite; the generated body is kept as the list of statements the macro
 writes, and `Run` gives that list its meaning (Rust's scoping of nested items and `let`
 shadowing included).
 */
module ShouldMatch {
  import opened RustHost

  /** The meta of one outer attribute, the text between `#[` and `]`. */
  type Attr = string

  /** The input: `$(#[$attr])* $vis fn $name() -> $ret_ty $body`. */
  datatype FnDef<T> = FnDef(attrs: seq<Attr>, vis: Visibility, name: string, retTy: string, body: Block<T>)

  /** A statement of the generated function's body. */
  datatype Stmt<!T> =
    | ItemFn(def: FnDef<T>)                                          // a nested `fn` item
    | LetCall(local: string, callee: string)                         // `let local = callee();`
    | LetMatches(local: string, scrutinee: string, pattern: Pattern<T>)  // `let local = ::core::matches!(scrutinee, pattern);`
    | LetStr(local: string, text: string)                            // `let local = "text";`
    | AssertFmt(cond: string, arg: string)                           // `assert!(cond, "{arg}");`

  /** The output: `$(#[$attr])* $vis fn $name() { body }`; `retTy == None` is the unit return type. */
  datatype Generated<!T> = Generated(attrs: seq<Attr>, vis: Visibility, name: string, retTy: Option<string>, body: seq<Stmt<T>>)

  /** What running the generated function does: return normally, or fail one assertion with a message. */
  datatype Outcome = Pass | Fail(message: string)

  /** The value of a local of the generated body. */
  datatype Value<T> = Res(v: T) | Bool(b: bool) | Str(s: string)

  const InnerName := "inner"
  const ResultName := "result"
  const IsMatchName := "is_match"
  const MessageName := "message"
  const DefaultPrefix := "Expected to match `"

  /** `concat!("Expected to match `", stringify!($pattern), "`")`. */
  function DefaultMessage(patternText: string): (s: string)
    ensures |s| == |DefaultPrefix| + |patternText| + 1
    ensures s[..|DefaultPrefix|] == DefaultPrefix && s[|s| - 1] == '`'
    ensures s[|DefaultPrefix|..|s| - 1] == patternText
  {
    DefaultPrefix + patternText + "`"
  }

  /** The failure text the macro promises: the caller's literal if given, else the default. */
  function ChosenMessage<T>(pattern: Pattern<T>, message: Option<string>): string
  {
    match message
    case Some(m) => m
    case None => DefaultMessage(pattern.text)
  }

  /** The nested function the macro writes: `fn inner() -> $ret_ty $body`. */
  function InnerOf<T>(def: FnDef<T>): FnDef<T>
  {
    FnDef([], Inherited, InnerName, def.retTy, def.body)
  }

  /** The macro rewrite. */
  function Expand<T>(def: FnDef<T>, pattern: Pattern<T>, message: Option<string>): (g: Generated<T>)
    ensures g.attrs == def.attrs && g.vis == def.vis && g.name == def.name
    ensures g.retTy == None
    ensures |g.body| == if message.Some? then 6 else 5
    ensures g.body[0] == ItemFn(InnerOf(def)) && InnerOf(def).body == def.body && InnerOf(def).retTy == def.retTy
  {
    var shadow := match message
      case Some(m) => [LetStr(MessageName, m)]
      case None => [];
    Generated(def.attrs, def.vis, def.name, None,
      [ ItemFn(InnerOf(def)),
        LetCall(ResultName, InnerName),
        LetMatches(IsMatchName, ResultName, pattern),
        LetStr(MessageName, DefaultMessage(pattern.text)) ]
      + shadow
      + [ AssertFmt(IsMatchName, MessageName) ])
  }

  /**
   The nested items of a block, visible throughout it whatever their position; a name
   declared twice is rejected by the compiler (None).
   */
  function Items<T>(body: seq<Stmt<T>>): Option<map<string, FnDef<T>>>
  {
    if body == [] then Some(map[])
    else
      match Items(body[1..])
      case None => None
      case Some(rest) =>
        match body[0]
        case ItemFn(f) => if f.name in rest then None else Some(rest[f.name := f])
        case _ => Some(rest)
  }

  /** The type of a local of the generated body, as far as the compiler checks it. */
  datatype Kind = ResultKind | BoolKind | StrKind

  function KindOf<T>(v: Value<T>): Kind
  {
    match v
    case Res(_) => ResultKind
    case Bool(_) => BoolKind
    case Str(_) => StrKind
  }

  /** The kinds of the locals bound so far. */
  function KindsOf<T>(locals: map<string, Value<T>>): map<string, Kind>
  {
    map x | x in locals :: KindOf(locals[x])
  }

  /**
   The compiler's check of a block, before anything runs: every callee is a function in
   `scope`, and every local is bound by an earlier `let` with a value of the kind its use
   needs. `kinds` holds the locals bound so far; a later `let` of the same name shadows
   the earlier one.
   */
  predicate WellScoped<T>(body: seq<Stmt<T>>, scope: map<string, FnDef<T>>, kinds: map<string, Kind>)
    decreases |body|
  {
    if body == [] then true
    else
      var rest := body[1..];
      match body[0]
      case ItemFn(_) => WellScoped(rest, scope, kinds)
      case LetCall(x, f) => f in scope && WellScoped(rest, scope, kinds[x := ResultKind])
      case LetMatches(x, y, _) =>
        y in kinds && kinds[y] == ResultKind && WellScoped(rest, scope, kinds[x := BoolKind])
      case LetStr(x, _) => WellScoped(rest, scope, kinds[x := StrKind])
      case AssertFmt(c, a) =>
        c in kinds && kinds[c] == BoolKind && a in kinds && kinds[a] == StrKind
        && WellScoped(rest, scope, kinds)
  }

  /** The number of `assert!` statements in a block. */
  function Asserts<T>(body: seq<Stmt<T>>): nat
  {
    if body == [] then 0 else (if body[0].AssertFmt? then 1 else 0) + Asserts(body[1..])
  }

  /**
   Executes a block that the compiler accepted, in order, with the functions in `scope`
   and the `locals` bound so far. A failed `assert!` ends the run, and nothing else fails it.
   */
  function Exec<T>(body: seq<Stmt<T>>, scope: map<string, FnDef<T>>, locals: map<string, Value<T>>): (r: Outcome)
    requires WellScoped(body, scope, KindsOf(locals))
    ensures r.Fail? ==> Asserts(body) > 0
    decreases |body|
  {
    if body == [] then Pass
    else
      var rest := body[1..];
      match body[0]
      case ItemFn(_) => Exec(rest, scope, locals)
      case LetCall(x, f) =>
        var v := Res(Eval(scope[f].body));
        assert KindsOf(locals[x := v]) == KindsOf(locals)[x := ResultKind];
        Exec(rest, scope, locals[x := v])
      case LetMatches(x, y, p) =>
        var v := Bool(p.test(locals[y].v));
        assert KindsOf(locals[x := v]) == KindsOf(locals)[x := BoolKind];
        Exec(rest, scope, locals[x := v])
      case LetStr(x, s) =>
        var v := Str(s);
        assert KindsOf(locals[x := v]) == KindsOf(locals)[x := StrKind];
        Exec(rest, scope, locals[x := v])
      case AssertFmt(c, a) =>
        if locals[c].b then Exec(rest, scope, locals) else Fail(locals[a].s)
  }

  /**
   The functions a call in the generated body can reach: those of the enclosing module
   (`outer`), where an item of the block hides an outer function of the same name.
   */
  function BlockScope<T>(g: Generated<T>, outer: map<string, FnDef<T>>): map<string, FnDef<T>>
    requires Items(g.body).Some?
  {
    outer + Items(g.body).value
  }

  /** The generated function is accepted by the compiler in a module declaring `outer`. */
  predicate Compiles<T>(g: Generated<T>, outer: map<string, FnDef<T>>)
  {
    Items(g.body).Some? && WellScoped(g.body, BlockScope(g, outer), map[])
  }

  /** Calling the generated function in a module declaring `outer`. */
  function Run<T>(g: Generated<T>, outer: map<string, FnDef<T>>): (r: Outcome)
    requires Compiles(g, outer)
    ensures r.Fail? ==> Asserts(g.body) > 0
  {
    var none: map<string, Value<T>> := map[];
    assert KindsOf(none) == map[];
    Exec(g.body, BlockScope(g, outer), none)
  }

  /** The only item of the generated body is `inner`, which carries the original return type and body. */
  lemma InnerKeepsBody<T>(def: FnDef<T>, pattern: Pattern<T>, message: Option<string>)
    ensures Items(Expand(def, pattern, message).body) == Some(map[InnerName := InnerOf(def)])
  {
    var body := Expand(def, pattern, message).body;
    var n := |body|;
    assert Items(body[n - 1..]) == Some(map[]);
    if message.Some? {
      assert Items(body[4..]) == Some(map[]);
    }
    assert Items(body[3..]) == Some(map[]);
    assert Items(body[2..]) == Some(map[]);
    assert Items(body[1..]) == Some(map[]);
  }

  /** The statements of the expansion, one by one, and how its suffixes follow each other. */
  lemma ExpandSteps<T>(def: FnDef<T>, pattern: Pattern<T>, message: Option<string>)
    ensures var body := Expand(def, pattern, message).body; var n := |body|;
            && body[1] == LetCall(ResultName, InnerName)
            && body[2] == LetMatches(IsMatchName, ResultName, pattern)
            && body[3] == LetStr(MessageName, DefaultMessage(pattern.text))
            && body[n - 1] == AssertFmt(IsMatchName, MessageName)
            && body[1..][1..] == body[2..] && body[2..][1..] == body[3..]
            && (message.Some? ==> body[4] == LetStr(MessageName, message.value)
                                  && body[3..][1..] == body[4..] && body[4..][1..] == body[n - 1..])
            && (message.None? ==> body[3..][1..] == body[n - 1..])
            && body[n - 1..][1..] == []
  {
  }

  /** The expansion passes the compiler's check in any scope where `inner` is the moved body. */
  lemma ExpandWellScoped<T>(def: FnDef<T>, pattern: Pattern<T>, message: Option<string>, scope: map<string, FnDef<T>>)
    requires InnerName in scope && scope[InnerName] == InnerOf(def)
    ensures WellScoped(Expand(def, pattern, message).body, scope, map[])
  {
    var body := Expand(def, pattern, message).body;
    var n := |body|;
    ExpandSteps(def, pattern, message);
    var k1 := map[ResultName := ResultKind];
    var k2 := k1[IsMatchName := BoolKind];
    var k3 := k2[MessageName := StrKind];
    assert WellScoped(body[n - 1..], scope, k3);
    if message.Some? {
      assert WellScoped(body[4..], scope, k3);
    }
    assert WellScoped(body[3..], scope, k2);
    assert WellScoped(body[2..], scope, k1);
    assert WellScoped(body[1..], scope, map[]);
  }

  /** Running the expansion in any scope where `inner` is the moved body. */
  lemma ExpandExec<T>(def: FnDef<T>, pattern: Pattern<T>, message: Option<string>, scope: map<string, FnDef<T>>)
    requires InnerName in scope && scope[InnerName] == InnerOf(def)
    ensures var none: map<string, Value<T>> := map[];
            KindsOf(none) == map[]
            && WellScoped(Expand(def, pattern, message).body, scope, KindsOf(none))
            && Exec(Expand(def, pattern, message).body, scope, none)
               == if pattern.test(Eval(def.body)) then Pass else Fail(ChosenMessage(pattern, message))
  {
    var body := Expand(def, pattern, message).body;
    var n := |body|;
    ExpandSteps(def, pattern, message);
    ExpandWellScoped(def, pattern, message, scope);
    var k1 := map[ResultName := ResultKind];
    var k2 := k1[IsMatchName := BoolKind];
    var k3 := k2[MessageName := StrKind];
    var r := Eval(def.body);
    var l1 := map[ResultName := Res(r)];
    var l2 := l1[IsMatchName := Bool(pattern.test(r))];
    var l3 := l2[MessageName := Str(DefaultMessage(pattern.text))];
    var l4 := if message.Some? then l3[MessageName := Str(message.value)] else l3;
    assert KindsOf(l4) == k3 && KindsOf(l3) == k3 && KindsOf(l2) == k2 && KindsOf(l1) == k1;
    var none: map<string, Value<T>> := map[];
    assert KindsOf(none) == map[];
    assert WellScoped(body[n - 1..], scope, k3);
    if message.Some? {
      assert WellScoped(body[4..], scope, k3);
    }
    assert WellScoped(body[3..], scope, k2);
    assert WellScoped(body[2..], scope, k1);
    assert WellScoped(body[1..], scope, map[]);
    var verdict := if pattern.test(r) then Pass else Fail(ChosenMessage(pattern, message));
    assert Exec(body[n - 1..], scope, l4) == verdict;
    if message.Some? {
      assert Exec(body[4..], scope, l3) == verdict;
    }
    assert Exec(body[3..], scope, l2) == verdict;
    assert Exec(body[2..], scope, l1) == verdict;
    assert Exec(body[1..], scope, none) == verdict;
  }

  /**
   In every module, whatever functions it declares (one named `inner` included), the
   generated function compiles; it passes exactly when the body's result matches, and
   otherwise fails with the chosen message.
   */
  lemma RunExpand<T>(def: FnDef<T>, pattern: Pattern<T>, message: Option<string>, outer: map<string, FnDef<T>>)
    ensures Compiles(Expand(def, pattern, message), outer)
    ensures Run(Expand(def, pattern, message), outer)
         == if pattern.test(Eval(def.body)) then Pass else Fail(ChosenMessage(pattern, message))
  {
    var g := Expand(def, pattern, message);
    InnerKeepsBody(def, pattern, message);
    var scope := BlockScope(g, outer);
    assert InnerName in scope && scope[InnerName] == InnerOf(def);
    ExpandWellScoped(def, pattern, message, scope);
    ExpandExec(def, pattern, message, scope);
  }

  /**
   The functions of the enclosing module never change the outcome: `inner()` always calls
   the moved body, even where the module declares an `inner` of its own.
   */
  lemma OuterScopeNeverDecides<T>(def: FnDef<T>, pattern: Pattern<T>, message: Option<string>, o1: map<string, FnDef<T>>, o2: map<string, FnDef<T>>)
    ensures Compiles(Expand(def, pattern, message), o1) && Compiles(Expand(def, pattern, message), o2)
    ensures Run(Expand(def, pattern, message), o1) == Run(Expand(def, pattern, message), o2)
  {
    RunExpand(def, pattern, message, o1);
    RunExpand(def, pattern, message, o2);
  }

  /** The generated function passes if and only if the body's result matches the pattern. */
  lemma PassIffMatches<T>(def: FnDef<T>, pattern: Pattern<T>, message: Option<string>, outer: map<string, FnDef<T>>)
    ensures Compiles(Expand(def, pattern, message), outer)
    ensures Run(Expand(def, pattern, message), outer) == Pass <==> pattern.test(Eval(def.body))
  {
    RunExpand(def, pattern, message, outer);
  }

  /** Without a message argument a mismatch fails with "Expected to match `<pattern>`". */
  lemma DefaultMessageOnMismatch<T>(def: FnDef<T>, pattern: Pattern<T>, outer: map<string, FnDef<T>>)
    requires !pattern.test(Eval(def.body))
    ensures Compiles(Expand(def, pattern, None), outer)
    ensures Run(Expand(def, pattern, None), outer) == Fail("Expected to match `" + pattern.text + "`")
  {
    RunExpand(def, pattern, None, outer);
  }

  /** With a message literal a mismatch fails with exactly that literal, not the default. */
  lemma CustomMessageOnMismatch<T>(def: FnDef<T>, pattern: Pattern<T>, message: string, outer: map<string, FnDef<T>>)
    requires !pattern.test(Eval(def.body))
    ensures Compiles(Expand(def, pattern, Some(message)), outer)
    ensures Run(Expand(def, pattern, Some(message)), outer) == Fail(message)
  {
    RunExpand(def, pattern, Some(message), outer);
  }

  /** The message argument never changes whether the generated function passes. */
  lemma MessageNeverDecides<T>(def: FnDef<T>, pattern: Pattern<T>, m1: Option<string>, m2: Option<string>, outer: map<string, FnDef<T>>)
    ensures Compiles(Expand(def, pattern, m1), outer) && Compiles(Expand(def, pattern, m2), outer)
    ensures Run(Expand(def, pattern, m1), outer).Pass? == Run(Expand(def, pattern, m2), outer).Pass?
  {
    RunExpand(def, pattern, m1, outer);
    RunExpand(def, pattern, m2, outer);
  }

  /**
   Only the value the body returns matters: two definitions whose bodies return the same
   value, by a final expression, a `return` or a `?`, give the same outcome.
   */
  lemma ResultDecides<T>(d1: FnDef<T>, d2: FnDef<T>, pattern: Pattern<T>, message: Option<string>, outer: map<string, FnDef<T>>)
    requires Eval(d1.body) == Eval(d2.body)
    ensures Compiles(Expand(d1, pattern, message), outer) && Compiles(Expand(d2, pattern, message), outer)
    ensures Run(Expand(d1, pattern, message), outer) == Run(Expand(d2, pattern, message), outer)
  {
    RunExpand(d1, pattern, message, outer);
    RunExpand(d2, pattern, message, outer);
  }

  /** The generated body holds exactly one assertion, its last statement. */
  lemma SingleAssertion<T>(def: FnDef<T>, pattern: Pattern<T>, message: Option<string>)
    ensures Asserts(Expand(def, pattern, message).body) == 1
    ensures Expand(def, pattern, message).body[|Expand(def, pattern, message).body| - 1]
         == AssertFmt(IsMatchName, MessageName)
  {
    var body := Expand(def, pattern, message).body;
    var n := |body|;
    assert Asserts(body[n - 1..]) == 1;
    if message.Some? {
      assert Asserts(body[4..]) == 1;
    }
    assert Asserts(body[3..]) == 1;
    assert Asserts(body[2..]) == 1;
    assert Asserts(body[1..]) == 1;
  }
}
