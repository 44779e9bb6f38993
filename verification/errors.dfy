/** Failure values shared by every module of the model.

    Each constructor of `Error` stands for one exception the Python code raises;
    the comment beside it names the Python exception class. */
module Errors {

  datatype Option<+T> = None | Some(value: T)

  datatype Error =
    | UnknownClass(kind: string)                    // ModelException: new() on an undefined class
    | UnknownType(typeName: string)                 // ModelException: unknown meta model type name
    | UnknownPyType                                 // ModelException: python type without meta model name
    | CannotNavigate                                // ModelException: bad navigation start
    | EmptySet                                      // KeyError('set is empty') from pop()
    | MissingKey                                    // KeyError from a dict lookup
    | MissingAttribute(name: string)                // AttributeError on an instance
    | NoAssociationTable                            // TypeError: a Fragment's association table is None
    | Unhashable                                    // TypeError: a QuerySet used as a dict/set key
    | NotIterable                                   // TypeError: iter() or set() of a non-iterable
    | AssertionFailed                               // AssertionError from an `assert isinstance(...)`
    | CoercionFailed                                // whatever Type(value) raised during new()
    | BuiltinNotSubscriptable                       // TypeError: item assignment on builtin `next`
    | UndefinedFunction(name: string)               // RuntimeException: invoke of undefined function
    | SelectOneFromMany(cardinality: nat)           // RuntimeException: select one over a larger set
    | TypeMismatch(expected: string, actual: string) // RuntimeException from assert_type
    | UnknownFormatOp(op: char)                     // KeyError: unknown format_string operation
    | SelfKeyword                                   // TypeError: Fragment(**kw) given a `self` keyword

  /** Either the value an operation returns or the exception it raises. */
  datatype Result<+T> = Ok(value: T) | Err(error: Error)
}
