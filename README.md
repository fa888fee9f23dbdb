# should_match in Dafny

A model of the `should_match!` macro. The macro takes a function definition with no
arguments, a pattern and an optional message literal. It turns them into a test function
that runs the original body, checks the returned value against the pattern, and fails one
assertion when the value does not match. The failure message is the caller's literal if one
was given. Otherwise it is "Expected to match `<pattern>`".

The project has three modules:

- `RustHost` (`rust_host.dfy`) holds what the macro takes from the host language.
  - Visibilities.
  - The user's body, seen only through the value it returns. The body may end with a final
    expression, leave through `return`, or leave through a `?` on an error.
  - Patterns as a record of the text `stringify!` produces and a total yes/no test, which
    stands in for `::core::matches!`.
- `ShouldMatch` (`should_match.dfy`) is the macro itself.
  - `Expand` is the rewrite. It produces the generated function's attributes, visibility,
    name, unit return type and the list of statements of its body. That list holds the
    nested `fn inner`, `let result`, `let is_match`, the default `let message`, the
    shadowing `let message` when a literal is given, and the final `assert!`.
  - `Compiles` is the compiler's check, made before anything runs, in a module that
    declares a given set of functions (`outer`). The block's nested items must have
    distinct names. They are visible in the whole block and hide module functions of the
    same name. Every callee must be a function in that scope. Every local must be bound by
    an earlier `let` with a value of the right kind, and a later `let` shadows an earlier one.
  - `Exec` and `Run` give a block that passes this check its meaning.
- `IntegrationTest` (`integration_test.dfy`) replays the repository's integration tests and
  two mismatch cases on the model.

## Model

| member | source | states |
|---|---|---|
| ShouldMatch.Expand | src/lib.rs:9-25 | The generated function keeps the input's attribute list unchanged and in order, and keeps its visibility and name. It returns unit and takes no arguments. Its body has five statements, or six with a message, and the first is the nested `inner` with the original return type and body. |
| ShouldMatch.DefaultMessage | src/lib.rs:20 | The default message is the fixed prefix "Expected to match `", then the pattern text verbatim, then a closing backtick. |
| ShouldMatch.InnerKeepsBody | src/lib.rs:16-17 | The only item in the generated body is `inner`, declared once, with no attributes, the original return type and the original body. |
| ShouldMatch.RunExpand | src/lib.rs:15-24 | In every module, whatever functions it declares, the generated function compiles. Running it passes exactly when the body's result matches the pattern; otherwise it fails with the literal if given, else the default message. |
| ShouldMatch.OuterScopeNeverDecides | src/lib.rs:17-18 | `inner()` always calls the moved body. The outcome is the same in every module, even one that declares its own `inner`. |
| ShouldMatch.PassIffMatches | src/lib.rs:18-23 | The generated function passes if and only if the value `inner()` returns satisfies the pattern. |
| ShouldMatch.DefaultMessageOnMismatch | src/lib.rs:20-23 | Without a message argument, a mismatch fails with exactly "Expected to match `" + pattern text + "`". |
| ShouldMatch.CustomMessageOnMismatch | src/lib.rs:21-23 | With a message literal, a mismatch fails with that literal verbatim, in place of the default. |
| ShouldMatch.MessageNeverDecides | src/lib.rs:19-23 | Whether the generated function passes does not depend on the message argument. |
| ShouldMatch.ResultDecides | src/lib.rs:17-19 | Two bodies that return the same value give the same outcome, whether they return it by a final expression, a `return` or a `?`. |
| ShouldMatch.SingleAssertion | src/lib.rs:23 | The generated body holds exactly one assertion, and it is the last statement. |
| ShouldMatch.Exec | src/lib.rs:17-23 | The meaning of the generated statements, run in order. A run can fail only at an `assert!`. What it computes on the expansion is fixed by `RunExpand`. |
| ShouldMatch.Run | src/lib.rs:16-24 | Calling the generated function. A failing call needs an `assert!` in the body. Its outcome on the expansion is fixed by `RunExpand`, `PassIffMatches` and the two mismatch lemmas. |
| ShouldMatch.ChosenMessage | src/lib.rs:20-22 | The message choice. It has no contract of its own; `DefaultMessageOnMismatch` and `CustomMessageOnMismatch` fix its two cases. |
| ShouldMatch.Compiles | src/lib.rs:16-17 | The compiler's acceptance of a generated function. It has no contract of its own; `RunExpand` proves the expansion always passes it. |
| ShouldMatch.WellScoped | src/lib.rs:17-23 | The scope and kind check of the statements. It has no contract of its own; `RunExpand` proves the expansion passes it. |
| ShouldMatch.BlockScope | src/lib.rs:17 | The functions a call can reach, where the nested `inner` hides a module function of that name. It has no contract of its own; `OuterScopeNeverDecides` fixes its effect. |
| RustHost.Eval | src/lib.rs:17-18 | The value `inner()` returns from its body, whether by a final expression, a `return` or a `?`. It has no contract of its own; `ResultDecides` and `IntegrationTest.Try` fix its meaning. |
| IntegrationTest.DefaultMessageNamesPayload | src/lib.rs:20 | The default failure message for the pattern `Err("<payload>")` identifies the payload: two payloads with the same message are equal. |
| IntegrationTest.Try | tests/integration_test.rs:37 | `operand?` on an `Err` makes the body return that error. On `Ok` the rest of the body decides the value. |
| IntegrationTest.MatchDirect | tests/integration_test.rs:8-14 | `test_match_direct` keeps its `#[test]` attribute, and its generated function passes. |
| IntegrationTest.MatchWithReturn | tests/integration_test.rs:28-32 | A body that leaves through `return Err("error");` passes. |
| IntegrationTest.MatchWithQuestionMark | tests/integration_test.rs:34-39 | A body that leaves through `Err("error")?;` before its final `Ok(())` passes. |
| IntegrationTest.MatchWithMessage | tests/integration_test.rs:41-45 | A message argument on a matching body still gives a pass. |
| IntegrationTest.MismatchDefaultMessage | src/lib.rs:20 | `Ok(())` against `Err("error")` fails with "Expected to match `Err("error")`". |
| IntegrationTest.MismatchCustomMessage | src/lib.rs:22 | The same mismatch with the message "Custom failure text" fails with exactly that text. |

## Left out

- Parsing the macro's input tokens and the fragment specifiers (`meta`, `vis`, `ident`, `ty`, `pat`, `block`, `literal`). The model starts from the already-parsed definition.
- The meaning of Rust patterns. A pattern is kept as its text and a total yes/no test, and checking that the pattern fits the return type is left to the compiler. The integration tests' `Err("error")` is the one pattern given concretely.
- The exact token spacing `stringify!` produces. The pattern text is taken as given.
- Message literals other than strings. A literal is modelled as the text that `"{message}"` displays.
- The panic machinery of `assert!` and the test harness. A failed assertion is the `Fail(message)` outcome.
- What a body does besides returning its value. The model keeps the statements that decide the return value: a final expression, `return` and `?`. How the `?` operand is converted is part of the host language. `IntegrationTest.Try` fixes it for `Result` with an unchanged error.
- Name resolution inside the moved body. `inner` is an item, and `macro_rules` hygiene does not rename items. So a body that refers to a function named `inner`, or to the test's own name, reaches the generated functions. The model keeps the body only through the value it returns, so it does not show this.
- `#[apply(...)]` from the `macro_rules_attr` crate (tests/integration_test.rs:16-45). Its only effect is to hand the same definition, with its remaining `#[test]` attribute, to the macro. The tests `test_match_apply_first` and `test_match_apply_second` are therefore the same case as `MatchDirect`.
- The ok/err/some/none shortcut macros and the variants that add `#[test]` automatically. They are not part of this model because `src/lib.rs` does not define them.
- `#![no_std]` and the crate documentation include (src/lib.rs:1-2). They are crate configuration.
