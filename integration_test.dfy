/**
 The integration tests of `should_match!`, replayed on the model: each test function is a
 definition of result type `Result<(), &'static str>`, expanded with the pattern
 `Err("error")`, and its generated function must pass. Two further cases show the
 failure messages.
 */
module IntegrationTest {
  import opened RustHost
  import opened ShouldMatch

  datatype Unit = Unit
  datatype RustResult<T, E> = Ok(value: T) | Err(error: E)

  /** `Result<(), &'static str>`. */
  type Ret = RustResult<Unit, string>

  const RetTy := "Result<(), &'static str>"

  /**
   The pattern `Err("<payload>")`: the error variant with exactly this payload. The text is
   what `stringify!` renders only for payloads without `"` or `\`, which a string literal
   would write escaped.
   */
  function ErrWith(payload: string): (p: Pattern<Ret>)
    ensures p.text == "Err(\"" + payload + "\")"
    ensures forall r: Ret :: p.test(r) <==> r.Err? && r.error == payload
  {
    Pattern("Err(\"" + payload + "\")", (r: Ret) => r == Err(payload))
  }

  /**
   The default failure message of the pattern `Err("<payload>")` names its payload: two
   payloads that give the same message are the same payload.
   */
  lemma DefaultMessageNamesPayload(a: string, b: string)
    requires DefaultMessage(ErrWith(a).text) == DefaultMessage(ErrWith(b).text)
    ensures a == b
  {
    var ta, tb := ErrWith(a).text, ErrWith(b).text;
    assert ta == tb;
    assert ta[5..|ta| - 2] == a;
    assert tb[5..|tb| - 2] == b;
  }

  /** `operand?; rest` in a function returning `Ret`: an `Err` leaves the function with that error. */
  function Try(operand: Ret, rest: Block<Ret>): (b: Block<Ret>)
    ensures operand.Err? ==> Eval(b) == Err(operand.error)
    ensures operand.Ok? ==> Eval(b) == Eval(rest)
  {
    Question(if operand.Err? then Some(Err(operand.error)) else None, rest)
  }

  /** A test function marked `#[test]` with the given name and body. */
  function TestFn(name: string, body: Block<Ret>): FnDef<Ret>
  {
    FnDef(["test"], Inherited, name, RetTy, body)
  }

  /** `test_match_direct`: the body's final expression is `Err("error")`. */
  lemma MatchDirect(outer: map<string, FnDef<Ret>>)
    ensures var g := Expand(TestFn("test_match_direct", Tail(Err("error"))), ErrWith("error"), None);
            g.attrs == ["test"] && Compiles(g, outer) && Run(g, outer) == Pass
  {
    PassIffMatches(TestFn("test_match_direct", Tail(Err("error"))), ErrWith("error"), None, outer);
  }

  /** `test_match_with_return`: the body leaves through `return Err("error");`. */
  lemma MatchWithReturn(outer: map<string, FnDef<Ret>>)
    ensures var g := Expand(TestFn("test_match_with_return", Return(Err("error"))), ErrWith("error"), None);
            Compiles(g, outer) && Run(g, outer) == Pass
  {
    PassIffMatches(TestFn("test_match_with_return", Return(Err("error"))), ErrWith("error"), None, outer);
  }

  /** `test_match_with_question_mark`: `Err("error")?;` leaves before the final `Ok(())`. */
  lemma MatchWithQuestionMark(outer: map<string, FnDef<Ret>>)
    ensures var g := Expand(TestFn("test_match_with_question_mark", Try(Err("error"), Tail(Ok(Unit)))), ErrWith("error"), None);
            Compiles(g, outer) && Run(g, outer) == Pass
  {
    PassIffMatches(TestFn("test_match_with_question_mark", Try(Err("error"), Tail(Ok(Unit)))), ErrWith("error"), None, outer);
  }

  /** `test_match_with_message`: a message argument on a matching body changes nothing. */
  lemma MatchWithMessage(outer: map<string, FnDef<Ret>>)
    ensures var g := Expand(TestFn("test_match_with_message", Tail(Err("error"))), ErrWith("error"), Some("Expected `Err`, but got `Ok`"));
            Compiles(g, outer) && Run(g, outer) == Pass
  {
    PassIffMatches(TestFn("test_match_with_message", Tail(Err("error"))), ErrWith("error"), Some("Expected `Err`, but got `Ok`"), outer);
  }

  /** A body returning `Ok(())` against `Err("error")` fails with the synthesized message. */
  lemma MismatchDefaultMessage(outer: map<string, FnDef<Ret>>)
    ensures var g := Expand(TestFn("mismatch", Tail(Ok(Unit))), ErrWith("error"), None);
            Compiles(g, outer) && Run(g, outer) == Fail("Expected to match `Err(\"error\")`")
  {
    DefaultMessageOnMismatch(TestFn("mismatch", Tail(Ok(Unit))), ErrWith("error"), outer);
  }

  /** The same mismatch with a message argument fails with exactly that text. */
  lemma MismatchCustomMessage(outer: map<string, FnDef<Ret>>)
    ensures var g := Expand(TestFn("mismatch", Tail(Ok(Unit))), ErrWith("error"), Some("Custom failure text"));
            Compiles(g, outer) && Run(g, outer) == Fail("Custom failure text")
  {
    CustomMessageOnMismatch(TestFn("mismatch", Tail(Ok(Unit))), ErrWith("error"), "Custom failure text", outer);
  }
}
