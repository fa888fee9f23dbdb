/**
 The pieces of the host language that the `should_match!` macro relies on but does not
 define: visibilities, the user's function body seen as a producer of one value, and
 structural patterns as `::core::matches!` and `stringify!` present them to the macro.
 */
module RustHost {

  datatype Option<T> = None | Some(value: T)

  /** The `$vis` fragment; `Inherited` is the empty visibility (private to the module). */
  datatype Visibility =
    | Inherited
    | Pub
    | PubCrate
    | PubSuper
    | PubSelf
    | PubIn(path: string)

  /**
   A function body, kept only as far as it decides the value handed back to the caller:
   a final expression, an explicit `return`, or a `?` that either leaves the function
   with a value or lets evaluation continue with the rest of the block.
   */
  datatype Block<T> =
    | Tail(value: T)                              // `{ ...; expr }`
    | Return(value: T)                            // `{ ...; return expr; }`
    | Question(exit: Option<T>, rest: Block<T>)   // `{ operand?; rest }`

  /** The value a call of a function with body `b` returns. */
  function Eval<T>(b: Block<T>): T
  {
    match b
    case Tail(v) => v
    case Return(v) => v
    case Question(exit, rest) =>
      match exit
      case Some(v) => v
      case None => Eval(rest)
  }

  /**
   A structural pattern as the macro receives it: `text` is what `stringify!` renders,
   `test` is the yes/no answer `::core::matches!` gives for a value of the result type.
   */
  datatype Pattern<!T> = Pattern(text: string, test: T -> bool)
}
