/** The closed set of WHERE operators of the query layer and the SQL symbol
    each one stands for. */
module Condicoes {
  import opened Results

  datatype Condicao =
    | Equal
    | NotEqual
    | GreaterThan
    | LessThan
    | GreaterOrEqual
    | LessOrEqual
    | Like
    | ILike
    | Between
    | In

  /** The ten constants, in declaration order (`Condicao.values()`). */
  const Values: seq<Condicao> :=
    [Equal, NotEqual, GreaterThan, LessThan, GreaterOrEqual, LessOrEqual, Like, ILike, Between, In]

  /** `getOperador`: the symbol the constant was constructed with. */
  function Operador(c: Condicao): string {
    match c
    case Equal => "="
    case NotEqual => "<>"
    case GreaterThan => ">"
    case LessThan => "<"
    case GreaterOrEqual => ">="
    case LessOrEqual => "<="
    case Like => "LIKE"
    case ILike => "ILIKE"
    case Between => "BETWEEN"
    case In => "IN"
  }

  /** The constant whose symbol is `s`, if there is one: an independent
      reverse table that `Operador` must agree with. */
  function FromOperador(s: string): (r: Option<Condicao>)
    ensures r.Some? ==> r.value in Values
  {
    if s == "=" then Some(Equal)
    else if s == "<>" then Some(NotEqual)
    else if s == ">" then Some(GreaterThan)
    else if s == "<" then Some(LessThan)
    else if s == ">=" then Some(GreaterOrEqual)
    else if s == "<=" then Some(LessOrEqual)
    else if s == "LIKE" then Some(Like)
    else if s == "ILIKE" then Some(ILike)
    else if s == "BETWEEN" then Some(Between)
    else if s == "IN" then Some(In)
    else None
  }

  /** The set is closed: every value is one of the ten, each listed once. */
  lemma ValuesClosed(c: Condicao)
    ensures c in Values
    ensures |Values| == 10
    ensures forall i, j :: 0 <= i < j < |Values| ==> Values[i] != Values[j]
  {
  }

  /** Reading a constant's symbol back gives the constant. */
  lemma OperadorRoundTrip(c: Condicao)
    ensures FromOperador(Operador(c)) == Some(c)
  {
  }

  /** Only the ten symbols are read back, and each to the constant that
      prints it. */
  lemma FromOperadorSound(s: string)
    requires FromOperador(s).Some?
    ensures Operador(FromOperador(s).value) == s
  {
  }

  /** No two operators share a symbol. */
  lemma OperadorInjective(a: Condicao, b: Condicao)
    requires Operador(a) == Operador(b)
    ensures a == b
  {
    OperadorRoundTrip(a);
    OperadorRoundTrip(b);
  }
}
