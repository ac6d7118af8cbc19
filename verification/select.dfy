/** `CotacaoSelect`: the two queries the service runs, stated as what the
    query asks of the `cotacao_cafe` table (filter, order, projection). */
module CotacaoSelect {
  import opened Results
  import opened Dates
  import opened Entities
  import opened Dao
  import opened Seqs

  // ---------------------------------------------------------------------
  // Point lookup
  // ---------------------------------------------------------------------

  /** The two equality conditions of the point lookup. */
  predicate TemChave(c: CotacaoCafe, data: Date, origem: string) {
    c.dataReferencia == Some(data) && c.origemDado == Some(origem)
  }

  /** The rows both conditions select, in table order. */
  function Achados(s: Store, data: Date, origem: string): seq<CotacaoCafe> {
    Filter((c: CotacaoCafe) => TemChave(c, data, origem), s.cotacoes)
  }

  lemma AchadosCardinalidade(s: Store, data: Date, origem: string)
    ensures |Achados(s, data, origem)| >= 2 <==> exists i, j :: (0 <= i < j < |s.cotacoes|
      && TemChave(s.cotacoes[i], data, origem) && TemChave(s.cotacoes[j], data, origem))
    ensures Achados(s, data, origem) == [] <==>
      forall i :: 0 <= i < |s.cotacoes| ==> !TemChave(s.cotacoes[i], data, origem)
  {
    var p := (c: CotacaoCafe) => TemChave(c, data, origem);
    FilterAtLeastTwo(p, s.cotacoes);
    FilterEmpty(p, s.cotacoes);
  }

  lemma AchadoUnico(s: Store, data: Date, origem: string)
    requires |Achados(s, data, origem)| == 1
    ensures forall i :: (0 <= i < |s.cotacoes| && TemChave(s.cotacoes[i], data, origem)
      ==> s.cotacoes[i] == Achados(s, data, origem)[0])
  {
    var p := (c: CotacaoCafe) => TemChave(c, data, origem);
    forall i | 0 <= i < |s.cotacoes| && TemChave(s.cotacoes[i], data, origem)
      ensures s.cotacoes[i] == Achados(s, data, origem)[0]
    {
      FilterMembership(p, s.cotacoes, s.cotacoes[i]);
    }
  }

  /** `buscarPorDataEOrigem`: the single row whose date and source both
      match; a fresh entity with no id when none does (the query's
      `NoResultException` is caught); `one()` fails on several matches. */
  function BuscarPorDataEOrigem(s: Store, data: Date, origem: string, today: Date): (r: Result<CotacaoCafe>)
    ensures r.Err? <==> exists i, j :: (0 <= i < j < |s.cotacoes|
      && TemChave(s.cotacoes[i], data, origem) && TemChave(s.cotacoes[j], data, origem))
    ensures r.Err? ==> r.error == NonUniqueResult
    ensures (forall i :: 0 <= i < |s.cotacoes| ==> !TemChave(s.cotacoes[i], data, origem))
      ==> r == Ok(NovaCotacao(today))
    ensures r.Ok? ==> forall i :: (0 <= i < |s.cotacoes| && TemChave(s.cotacoes[i], data, origem)
      ==> r.value == s.cotacoes[i])
  {
    var achados := Achados(s, data, origem);
    AchadosCardinalidade(s, data, origem);
    if |achados| == 0 then Ok(NovaCotacao(today))
    else if |achados| == 1 then
      AchadoUnico(s, data, origem);
      Ok(achados[0])
    else Err(NonUniqueResult)
  }

  // ---------------------------------------------------------------------
  // Range query
  // ---------------------------------------------------------------------

  /** `dataReferencia BETWEEN inicio AND fim`: both ends inclusive; a row
      without a date never matches. */
  predicate NoPeriodo(c: CotacaoCafe, inicio: Date, fim: Date) {
    c.dataReferencia.Some? && DateLe(inicio, c.dataReferencia.value) && DateLe(c.dataReferencia.value, fim)
  }

  /** `select("dataReferencia", "valor")`: only those two fields are read. */
  function Projecao(c: CotacaoCafe): (r: CotacaoCafe)
    ensures r.dataReferencia == c.dataReferencia && r.valor == c.valor
  {
    CotacaoCafe(None, c.dataReferencia, None, c.valor, None, None, None)
  }

  /** The rows a projection can produce: two fields, nothing else. */
  predicate SoDataEValor(c: CotacaoCafe) {
    c == Projecao(c)
  }

  /** `orderBy("dataReferencia", true)`: `a` may come before `b`. */
  predicate NaoDepois(a: CotacaoCafe, b: CotacaoCafe) {
    match (a.dataReferencia, b.dataReferencia)
    case (None, _) => true
    case (Some(_), None) => false
    case (Some(x), Some(y)) => DateLe(x, y)
  }

  predicate OrdenadoPorData(s: seq<CotacaoCafe>) {
    forall i, j :: 0 <= i < j < |s| ==> NaoDepois(s[i], s[j])
  }

  lemma NaoDepoisTotalPreorder(a: CotacaoCafe, b: CotacaoCafe, c: CotacaoCafe)
    ensures NaoDepois(a, b) || NaoDepois(b, a)
    ensures NaoDepois(a, b) && NaoDepois(b, c) ==> NaoDepois(a, c)
  {
    if a.dataReferencia.Some? && b.dataReferencia.Some? && c.dataReferencia.Some? {
      DateLeTotalOrder(a.dataReferencia.value, b.dataReferencia.value, c.dataReferencia.value);
    } else if a.dataReferencia.Some? && b.dataReferencia.Some? {
      DateLeTotalOrder(a.dataReferencia.value, b.dataReferencia.value, a.dataReferencia.value);
    }
  }

  /** Inserts `x` after every row not later than it. */
  function InserirOrdenado(x: CotacaoCafe, s: seq<CotacaoCafe>): (r: seq<CotacaoCafe>)
    requires OrdenadoPorData(s)
    ensures OrdenadoPorData(r)
    ensures multiset(r) == multiset(s) + multiset{x}
    decreases |s|
  {
    if s == [] then [x]
    else
      var ultimo := s[|s| - 1];
      var prefixo := s[..|s| - 1];
      assert s == prefixo + [ultimo];
      if NaoDepois(ultimo, x) then
        UltimoLimita(s, x);
        AcrescentarOrdenado(s, x);
        s + [x]
      else
        NaoDepoisTotalPreorder(ultimo, x, ultimo);
        var inicio := InserirOrdenado(x, prefixo);
        UltimoLimita(s, ultimo);
        PermutacaoLimita(inicio, prefixo, x, ultimo);
        AcrescentarOrdenado(inicio, ultimo);
        inicio + [ultimo]
  }

  /** In a sorted list every row is not later than the last one, nor than
      anything the last one is not later than. */
  lemma UltimoLimita(s: seq<CotacaoCafe>, x: CotacaoCafe)
    requires OrdenadoPorData(s) && s != [] && NaoDepois(s[|s| - 1], x)
    ensures forall i :: 0 <= i < |s| ==> NaoDepois(s[i], x)
  {
    forall i | 0 <= i < |s| ensures NaoDepois(s[i], x) {
      NaoDepoisTotalPreorder(s[i], s[|s| - 1], x);
    }
  }

  /** A bound on every row and on `x` bounds every row of a permutation of
      them. */
  lemma PermutacaoLimita(r: seq<CotacaoCafe>, s: seq<CotacaoCafe>, x: CotacaoCafe, b: CotacaoCafe)
    requires multiset(r) == multiset(s) + multiset{x}
    requires NaoDepois(x, b) && forall i :: 0 <= i < |s| ==> NaoDepois(s[i], b)
    ensures forall i :: 0 <= i < |r| ==> NaoDepois(r[i], b)
  {
    forall i | 0 <= i < |r| ensures NaoDepois(r[i], b) {
      assert r[i] in multiset(r);
      if r[i] != x {
        assert r[i] in multiset(s);
        var k :| 0 <= k < |s| && s[k] == r[i];
      }
    }
  }

  lemma AcrescentarOrdenado(s: seq<CotacaoCafe>, x: CotacaoCafe)
    requires OrdenadoPorData(s) && forall i :: 0 <= i < |s| ==> NaoDepois(s[i], x)
    ensures OrdenadoPorData(s + [x])
  {
    var r := s + [x];
    forall i, j | 0 <= i < j < |r| ensures NaoDepois(r[i], r[j]) {
      assert r[i] == s[i];
    }
  }

  /** A stable insertion sort by reference date. */
  function OrdenarPorData(s: seq<CotacaoCafe>): (r: seq<CotacaoCafe>)
    ensures OrdenadoPorData(r)
    ensures multiset(r) == multiset(s)
    decreases |s|
  {
    if s == [] then []
    else
      assert s == s[..|s| - 1] + [s[|s| - 1]];
      InserirOrdenado(s[|s| - 1], OrdenarPorData(s[..|s| - 1]))
  }

  /** `buscarPorPeriodo`: the date/price projections of the rows dated
      between `inicio` and `fim` inclusive, in ascending date order. No
      match gives the empty list, never an error. Rows with equal dates
      come in insertion order here; the database leaves that order open. */
  function BuscarPorPeriodo(s: Store, inicio: Date, fim: Date): (r: seq<CotacaoCafe>)
    ensures OrdenadoPorData(r)
    ensures multiset(r) == multiset(Map(Projecao, Filter((c: CotacaoCafe) => NoPeriodo(c, inicio, fim), s.cotacoes)))
  {
    OrdenarPorData(Map(Projecao, Filter((c: CotacaoCafe) => NoPeriodo(c, inicio, fim), s.cotacoes)))
  }

  /** The range answer holds exactly the projections of the rows in the
      period: each answer row is the projection of an in-period row and
      carries nothing but a date in the period and a price, and every
      in-period row's projection is in the answer. */
  lemma BuscarPorPeriodoExato(s: Store, inicio: Date, fim: Date)
    ensures forall x :: x in BuscarPorPeriodo(s, inicio, fim) <==>
      exists c :: c in s.cotacoes && NoPeriodo(c, inicio, fim) && x == Projecao(c)
    ensures forall x :: x in BuscarPorPeriodo(s, inicio, fim) ==>
      SoDataEValor(x) && NoPeriodo(x, inicio, fim)
    ensures |BuscarPorPeriodo(s, inicio, fim)| ==
      |Filter((c: CotacaoCafe) => NoPeriodo(c, inicio, fim), s.cotacoes)|
  {
    var p := (c: CotacaoCafe) => NoPeriodo(c, inicio, fim);
    var filtrados := Filter(p, s.cotacoes);
    var projetados := Map(Projecao, filtrados);
    var r := BuscarPorPeriodo(s, inicio, fim);
    assert |r| == |projetados| by {
      assert |multiset(r)| == |multiset(projetados)|;
    }
    forall x ensures x in r <==> exists c :: c in s.cotacoes && p(c) && x == Projecao(c) {
      assert x in r <==> x in multiset(projetados);
      if x in projetados {
        var k :| 0 <= k < |projetados| && projetados[k] == x;
        FilterMembership(p, s.cotacoes, filtrados[k]);
      }
      if exists c :: c in s.cotacoes && p(c) && x == Projecao(c) {
        var c :| c in s.cotacoes && p(c) && x == Projecao(c);
        FilterMembership(p, s.cotacoes, c);
        var k :| 0 <= k < |filtrados| && filtrados[k] == c;
        assert projetados[k] == x;
      }
    }
  }
}
