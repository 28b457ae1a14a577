/** CQL trees as both compilers, src/cql2ccl.c and src/cqltransform.c, walk them. What a search clause
    is depends on the compiler. */
module CqlTree {
  datatype Connective = CqlAnd | CqlOr | CqlNot | CqlProx

  /** A modifier of a boolean node: name, relation and value as written. */
  datatype Modifier = Modifier(name: string, relation: string, term: string)

  datatype Cql<+C> =
    | Clause(clause: C)
    | Boolean(op: Connective, modifiers: seq<Modifier>, left: Cql<C>, right: Cql<C>)
    | Sort(search: Cql<C>)
}
