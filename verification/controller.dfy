/** `CotacaoController`: the two HTTP endpoints over the service, reduced to
    the status code and body each answer carries. */
module CotacaoController {
  import opened Results
  import opened Dates
  import opened Entities
  import opened Dao
  import opened Utils
  import CotacaoService

  const StatusOk: nat := 200
  const StatusCreated: nat := 201
  const StatusBadRequest: nat := 400
  const StatusInternalServerError: nat := 500

  /** A `ResponseEntity`: a status and an optional body. */
  datatype Resposta<T> = Resposta(status: nat, body: Option<T>)

  const MensagemSucesso: string := "Importação concluída com sucesso para o arquivo: "
  const MensagemErro: string := "Erro ao importar arquivo JSON."

  /** `POST /importar/json?path=…`: 201 and a message naming the path when
      the import completes, 500 and a fixed message on any exception. The
      store is the one the import leaves, committed writes included. */
  function ImportarJson(s: Store, path: string, dados: Result<seq<Option<CotacaoCafeDto>>>,
                        clock: CotacaoService.Clock): (r: (Store, Resposta<string>))
    ensures r.0 == CotacaoService.ImportarDeJson(s, path, dados, clock).store
    ensures r.1.status == StatusCreated <==> CotacaoService.ImportarDeJson(s, path, dados, clock).outcome.Ok?
    ensures r.1.status == StatusCreated || r.1.status == StatusInternalServerError
    ensures r.1.status == StatusCreated ==> r.1.body == Some(MensagemSucesso + path)
    ensures r.1.status == StatusInternalServerError ==> r.1.body == Some(MensagemErro)
  {
    var importacao := CotacaoService.ImportarDeJson(s, path, dados, clock);
    if importacao.outcome.Ok? then (importacao.store, Resposta(StatusCreated, Some(MensagemSucesso + path)))
    else (importacao.store, Resposta(StatusInternalServerError, Some(MensagemErro)))
  }

  /** `GET /periodo?inicio=…&fim=…`: both texts are `yyyy/MM` months; the
      window runs from the first day of `inicio` to the last day of `fim`.
      A parse failure is an exception and answers 500, as does a failing
      query; the null check (400) cannot fire, because `parseAnoMes` throws
      rather than returning null. */
  function ListarPorPeriodo(s: Store, inicio: string, fim: string): (r: Resposta<seq<CotacaoCafePeriodo>>)
    ensures r.status == StatusOk || r.status == StatusInternalServerError
    ensures r.status == StatusOk <==>
      && ParseAnoMes(Some(inicio)).Ok? && ParseAnoMes(Some(fim)).Ok?
      && CotacaoService.BuscarPeriodo(s, ParseAnoMes(Some(inicio)).value,
                                      LastDayOfMonth(ParseAnoMes(Some(fim)).value)).Ok?
    ensures r.status == StatusOk ==> r.body == Some(CotacaoService.BuscarPeriodo(s,
      ParseAnoMes(Some(inicio)).value, LastDayOfMonth(ParseAnoMes(Some(fim)).value)).value)
    ensures r.status == StatusInternalServerError ==> r.body.None?
  {
    var dataInicio := ParseAnoMes(Some(inicio));
    var dataFimBase := ParseAnoMes(Some(fim));
    if dataInicio.Err? || dataFimBase.Err? then Resposta(StatusInternalServerError, None)
    else
      var lista := CotacaoService.BuscarPeriodo(s, dataInicio.value, LastDayOfMonth(dataFimBase.value));
      if lista.Ok? then Resposta(StatusOk, Some(lista.value))
      else Resposta(StatusInternalServerError, None)
  }

  /** On a valid store, two `yyyy/MM` months always answer 200, every
      answered date lies in a month from the first through the second, and
      the dates ascend. (Every text `parseAnoMes`
      accepts cleans to such a label.) */
  lemma ListarPorPeriodoMeses(s: Store, anoInicio: nat, mesInicio: nat, anoFim: nat, mesFim: nat)
    requires Valid(s)
    requires 1 <= anoInicio <= 9999 && 1 <= mesInicio <= 12
    requires 1 <= anoFim <= 9999 && 1 <= mesFim <= 12
    ensures var r := ListarPorPeriodo(s, AnoMesLabel(anoInicio, mesInicio), AnoMesLabel(anoFim, mesFim));
      && r.status == StatusOk
      && forall i :: 0 <= i < |r.body.value| ==>
           r.body.value[i].data.Some?
           && MonthLe(Date(anoInicio, mesInicio, 1), r.body.value[i].data.value)
           && MonthLe(r.body.value[i].data.value, Date(anoFim, mesFim, 1))
    ensures var r := ListarPorPeriodo(s, AnoMesLabel(anoInicio, mesInicio), AnoMesLabel(anoFim, mesFim));
      forall i, j :: 0 <= i < j < |r.body.value| ==>
        r.body.value[i].data.Some? && r.body.value[j].data.Some?
        && DateLe(r.body.value[i].data.value, r.body.value[j].data.value)
  {
    ParseAnoMesRoundTrip(anoInicio, mesInicio);
    ParseAnoMesRoundTrip(anoFim, mesFim);
    var a := Date(anoInicio, mesInicio, 1);
    var b := Date(anoFim, mesFim, 1);
    var fimDia := LastDayOfMonth(b);
    CotacaoService.BuscarPeriodoValido(s, a, fimDia);
    var lista := CotacaoService.BuscarPeriodo(s, a, fimDia).value;
    forall i | 0 <= i < |lista|
      ensures lista[i].data.Some? && MonthLe(a, lista[i].data.value) && MonthLe(lista[i].data.value, b)
    {
      var e := lista[i].data.value;
      assert FirstDayOfMonth(a) == a;
      MonthWindow(a, b, e);
    }
  }

  /** And the answer is complete: every stored row dated in a month from
      the first through the second is answered, with its price rounded
      HALF_UP to two places. */
  lemma ListarPorPeriodoMesesCompleto(s: Store, anoInicio: nat, mesInicio: nat, anoFim: nat, mesFim: nat)
    requires Valid(s)
    requires 1 <= anoInicio <= 9999 && 1 <= mesInicio <= 12
    requires 1 <= anoFim <= 9999 && 1 <= mesFim <= 12
    ensures var r := ListarPorPeriodo(s, AnoMesLabel(anoInicio, mesInicio), AnoMesLabel(anoFim, mesFim));
      && r.status == StatusOk
      && forall k :: (0 <= k < |s.cotacoes| && s.cotacoes[k].dataReferencia.Some?
                      && MonthLe(Date(anoInicio, mesInicio, 1), s.cotacoes[k].dataReferencia.value)
                      && MonthLe(s.cotacoes[k].dataReferencia.value, Date(anoFim, mesFim, 1))) ==>
           exists i :: (0 <= i < |r.body.value| && r.body.value[i].data == s.cotacoes[k].dataReferencia
                        && Some(r.body.value[i].valorCafe) == Round(s.cotacoes[k].valor, 2))
  {
    ParseAnoMesRoundTrip(anoInicio, mesInicio);
    ParseAnoMesRoundTrip(anoFim, mesFim);
    var a := Date(anoInicio, mesInicio, 1);
    var b := Date(anoFim, mesFim, 1);
    var fimDia := LastDayOfMonth(b);
    CotacaoService.BuscarPeriodoCompleto(s, a, fimDia);
    forall k | 0 <= k < |s.cotacoes| && s.cotacoes[k].dataReferencia.Some?
      && MonthLe(a, s.cotacoes[k].dataReferencia.value) && MonthLe(s.cotacoes[k].dataReferencia.value, b)
      ensures DateLe(a, s.cotacoes[k].dataReferencia.value) && DateLe(s.cotacoes[k].dataReferencia.value, fimDia)
    {
      assert CotacaoPersistable(s.cotacoes[k]);
      assert FirstDayOfMonth(a) == a;
      MonthWindow(a, b, s.cotacoes[k].dataReferencia.value);
    }
  }

  /** The `yyyy-MM` form a client would naturally send is rejected: the
      hyphen is cleaned away before the `yyyy/MM` parse, so the endpoint
      answers 500. */
  lemma ListarPorPeriodoRejeitaIso(s: Store, year: nat, month: nat, fim: string)
    requires 1 <= year <= 9999 && 1 <= month <= 12
    ensures ListarPorPeriodo(s, IsoMonthLabel(year, month), fim).status == StatusInternalServerError
  {
    ParseAnoMesRejectsIsoMonth(year, month);
  }
}
