/**
 * What every value variant of the library shares: the tag that the parser
 * puts at the head of each AST node, the exceptions the value layer raises,
 * and the Option/Result wrappers that stand for Ruby's nil and raise.
 */
module Base {

  datatype Option<+T> = None | Some(value: T)

  /** A Ruby call that either returns a value or raises. */
  datatype Result<+T> = Ok(value: T) | Err(error: Error)

  /** The discriminant symbol at the head of a parser AST node. */
  datatype Tag =
    | StringTag   // :string
    | NumberTag   // :number
    | ObjectTag   // :object
    | ArrayTag    // :array
    | OtherTag(name: string)

  /** The exceptions raised by the value layer. */
  datatype Error =
    | WrongTag        // ArgumentError "not an object: ..." from every from_ast
    | NotANumber      // ArgumentError "not a number: ..." (integer part is nil)
    | InvalidDecimal  // ArgumentError from BigDecimal on text it cannot read
    | PackOutOfRange  // RangeError from Array#pack('U')
    | KeyConflict     // RuntimeError "key ... conflict." from Object#to_h
}
