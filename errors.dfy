/**
 * Diagnostics and the error type (crates/graphrite-core/src/error.rs).
 * The file declares its own Position and Span, but a Diagnostic's span is the
 * one from Ast; the duplicates are kept here, unused, as in the source.
 */
module Errors {
  import opened Wrappers
  import Ast

  datatype Position = Position(line: nat, col: nat)

  datatype Span = Span(start: Position, end: Position)

  /** A flat diagnostic: the code is the only machine discriminator. */
  datatype Diagnostic = Diagnostic(code: string, message: string, span: Option<Ast.Span>)

  /** The single error variant; it displays as its text. */
  datatype GraphriteError = Message(text: string)
}
