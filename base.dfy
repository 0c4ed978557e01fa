/**
  Shared result types for the HFC converter. The library reports every failure by raising a
  Python exception; here each exception the core can raise becomes a constructor of `Error`
  and every fallible operation returns a `Result`.
 */
module Base {

  datatype Option<T> = None | Some(value: T)

  /** The exceptions raised by the core, one constructor per distinct raise site kind. */
  datatype Error =
    // ValueError("Input list, chars and list separator cannot be empty")
    | EmptyArgument
    // ValueError("Unbalanced string bracket")
    | UnbalancedBracket
    // IndexError from reading chars[1] of a one-element delimiter list
    | MissingIndex
    // SyntaxError("Invalid variable declaration at line N.")
    | InvalidValue(line: int)
    // SyntaxError("Invalid section name at line N")
    | InvalidSectionName(line: int)
    // SyntaxError("Invalid variable name at line N")
    | InvalidVariableName(line: int)
    // SyntaxError("Invalid variable declaration outside a section at line N.")
    | OutsideSection(line: int)
    // NotHFC("Nothing to do.")
    | NothingToDo
    // TypeError("list_char values are not valid, ...")
    | InvalidListChars
    // NotHFC("One of the booleans value are not valid, ...")
    | InvalidBoolean
    // NotHFC("Invalid float_separator caused a invalid HFC text.")
    | InvalidFloatSeparator
    // ValueError("Section ... not found in HFC list")
    | SectionNotFound(section: string)
    // ValueError("Variable ... not found in section ...")
    | VariableNotFound(variable: string)
    // KeyError raised by a dict lookup or pop on a missing key
    | MissingKey(key: string)
    // ValueError("list.remove(x): x not in list")
    | NotInList
    // ValueError("No input file or HFC string provided")
    | NoInput
  {
    /** True for the syntax errors that carry the number of the offending line. */
    predicate HasLine() {
      InvalidValue? || InvalidSectionName? || InvalidVariableName? || OutsideSection?
    }
  }

  datatype Result<T> = Ok(value: T) | Err(error: Error)

  /** Outcome of an operation that mutates its argument and has no other result. */
  datatype Outcome = Pass | Fail(error: Error)
}
