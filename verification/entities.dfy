/** The two persisted records, their constructors and setters, the column
    constraints the database enforces, and the plain transfer records. A
    Java `null` field is `None`. `Double` prices are exact decimals here. */
module Entities {
  import opened Results
  import opened Dates
  import opened Decimals

  /** `CotacaoCafeEntity`: one coffee price quotation (table `cotacao_cafe`). */
  datatype CotacaoCafe = CotacaoCafe(
    id: Option<nat>,
    dataReferencia: Option<Date>,
    tipoCafe: Option<string>,
    valor: Option<Decimal>,
    variacao: Option<Decimal>,
    origemDado: Option<string>,
    criadoEm: Option<Date>)

  /** `ImpHistoricoEntity`: the audit record of one import run (table
      `imp_historico`). */
  datatype ImpHistorico = ImpHistorico(
    id: Option<nat>,
    nomeArquivo: Option<string>,
    origem: Option<string>,
    data: Option<LocalDateTime>,
    totalRegistro: Option<int>,
    tempoExecucaoMs: Option<int>)

  /** `CotacaoCafeDTO`: one decoded element of the imported JSON array. */
  datatype CotacaoCafeDto = CotacaoCafeDto(mesAno: Option<string>, valor: Option<Decimal>)

  /** `CotacaoCafePeriodoDTO`: one row of a range query answer. */
  datatype CotacaoCafePeriodo = CotacaoCafePeriodo(data: Option<Date>, valorCafe: Decimal)

  /** Column widths: `cotcaf_tipo` and `cotcaf_origem`. */
  const TipoCafeMaxLength: nat := 100
  const OrigemDadoMaxLength: nat := 255
  /** Column widths: `imp_nomeArquivo` and `imp_origem`. */
  const NomeArquivoMaxLength: nat := 255
  const OrigemMaxLength: nat := 50

  predicate FitsIn(s: Option<string>, width: nat) {
    s.Some? ==> |s.value| <= width
  }

  /** What the `cotacao_cafe` columns accept: a reference date (a calendar
      date, as every `LocalDate` is) and a price are required, and the two
      texts must fit their columns. */
  predicate CotacaoPersistable(c: CotacaoCafe) {
    && c.dataReferencia.Some? && ValidDate(c.dataReferencia.value)
    && c.valor.Some?
    && FitsIn(c.tipoCafe, TipoCafeMaxLength)
    && FitsIn(c.origemDado, OrigemDadoMaxLength)
  }

  /** What the `imp_historico` columns accept: all five data fields are
      required, and the two texts must fit their columns. */
  predicate HistoricoPersistable(h: ImpHistorico) {
    && h.nomeArquivo.Some? && h.origem.Some? && h.data.Some?
    && h.totalRegistro.Some? && h.tempoExecucaoMs.Some?
    && FitsIn(h.nomeArquivo, NomeArquivoMaxLength)
    && FitsIn(h.origem, OrigemMaxLength)
  }

  // ---------------------------------------------------------------------
  // CotacaoCafeEntity
  // ---------------------------------------------------------------------

  /** `new CotacaoCafeEntity()`: every field null except `criadoEm`, whose
      field initializer reads the current date. This is also the "not found"
      answer of the point lookup. */
  function NovaCotacao(today: Date): (r: CotacaoCafe)
    ensures r.id.None? && r.dataReferencia.None? && r.valor.None?
    ensures r.tipoCafe.None? && r.variacao.None? && r.origemDado.None?
    ensures r.criadoEm == Some(today)
    ensures !CotacaoPersistable(r)
  {
    CotacaoCafe(None, None, None, None, None, None, Some(today))
  }

  /** The four-argument constructor: copies its arguments, fixes the source
      to "CEPEA", and (through the field initializer) stamps the date. */
  function CotacaoDe(dataReferencia: Option<Date>, tipoCafe: Option<string>, valor: Option<Decimal>,
                     variacao: Option<Decimal>, today: Date): (r: CotacaoCafe)
    ensures r.id.None?
    ensures r.dataReferencia == dataReferencia && r.tipoCafe == tipoCafe
    ensures r.valor == valor && r.variacao == variacao
    ensures r.origemDado == Some("CEPEA") && r.criadoEm == Some(today)
    ensures CotacaoPersistable(r) <==>
      dataReferencia.Some? && ValidDate(dataReferencia.value) && valor.Some? && FitsIn(tipoCafe, TipoCafeMaxLength)
  {
    CotacaoCafe(None, dataReferencia, tipoCafe, valor, variacao, Some("CEPEA"), Some(today))
  }

  function SetDataReferencia(c: CotacaoCafe, v: Option<Date>): (r: CotacaoCafe)
    ensures r.dataReferencia == v && r.(dataReferencia := c.dataReferencia) == c
  {
    c.(dataReferencia := v)
  }

  function SetTipoCafe(c: CotacaoCafe, v: Option<string>): (r: CotacaoCafe)
    ensures r.tipoCafe == v && r.(tipoCafe := c.tipoCafe) == c
  {
    c.(tipoCafe := v)
  }

  function SetValor(c: CotacaoCafe, v: Option<Decimal>): (r: CotacaoCafe)
    ensures r.valor == v && r.(valor := c.valor) == c
  {
    c.(valor := v)
  }

  function SetVariacao(c: CotacaoCafe, v: Option<Decimal>): (r: CotacaoCafe)
    ensures r.variacao == v && r.(variacao := c.variacao) == c
  {
    c.(variacao := v)
  }

  function SetOrigemDado(c: CotacaoCafe, v: Option<string>): (r: CotacaoCafe)
    ensures r.origemDado == v && r.(origemDado := c.origemDado) == c
  {
    c.(origemDado := v)
  }

  function SetCriadoEm(c: CotacaoCafe, v: Option<Date>): (r: CotacaoCafe)
    ensures r.criadoEm == v && r.(criadoEm := c.criadoEm) == c
  {
    c.(criadoEm := v)
  }

  /** `getValor`: `new BigDecimal(valor)` throws on a null price. */
  function GetValor(c: CotacaoCafe): (r: Result<Decimal>)
    ensures r.Ok? <==> c.valor.Some?
    ensures r.Ok? ==> r.value == c.valor.value
    ensures r.Err? ==> r.error == NullPointer
  {
    if c.valor.None? then Err(NullPointer) else Ok(c.valor.value)
  }

  // ---------------------------------------------------------------------
  // ImpHistoricoEntity
  // ---------------------------------------------------------------------

  /** `new ImpHistoricoEntity()`: every field null. */
  function NovoHistorico(): (r: ImpHistorico)
    ensures r.id.None? && !HistoricoPersistable(r)
  {
    ImpHistorico(None, None, None, None, None, None)
  }

  /** The five-argument constructor: copies each argument, leaves the id
      null. */
  function HistoricoDe(nomeArquivo: Option<string>, origem: Option<string>, data: Option<LocalDateTime>,
                       totalRegistro: Option<int>, tempoExecucaoMs: Option<int>): (r: ImpHistorico)
    ensures r.id.None?
    ensures r.nomeArquivo == nomeArquivo && r.origem == origem && r.data == data
    ensures r.totalRegistro == totalRegistro && r.tempoExecucaoMs == tempoExecucaoMs
  {
    ImpHistorico(None, nomeArquivo, origem, data, totalRegistro, tempoExecucaoMs)
  }

  function SetNomeArquivo(h: ImpHistorico, v: Option<string>): (r: ImpHistorico)
    ensures r.nomeArquivo == v && r.(nomeArquivo := h.nomeArquivo) == h
  {
    h.(nomeArquivo := v)
  }

  function SetOrigem(h: ImpHistorico, v: Option<string>): (r: ImpHistorico)
    ensures r.origem == v && r.(origem := h.origem) == h
  {
    h.(origem := v)
  }

  function SetData(h: ImpHistorico, v: Option<LocalDateTime>): (r: ImpHistorico)
    ensures r.data == v && r.(data := h.data) == h
  {
    h.(data := v)
  }

  function SetTotalRegistro(h: ImpHistorico, v: Option<int>): (r: ImpHistorico)
    ensures r.totalRegistro == v && r.(totalRegistro := h.totalRegistro) == h
  {
    h.(totalRegistro := v)
  }

  function SetTempoExecucaoMs(h: ImpHistorico, v: Option<int>): (r: ImpHistorico)
    ensures r.tempoExecucaoMs == v && r.(tempoExecucaoMs := h.tempoExecucaoMs) == h
  {
    h.(tempoExecucaoMs := v)
  }

  /** Filling a fresh audit record through its five setters gives the same
      record as the five-argument constructor. */
  lemma SettersMatchConstructor(nomeArquivo: Option<string>, origem: Option<string>, data: Option<LocalDateTime>,
                                totalRegistro: Option<int>, tempoExecucaoMs: Option<int>)
    ensures SetTempoExecucaoMs(SetTotalRegistro(SetData(SetOrigem(SetNomeArquivo(
              NovoHistorico(), nomeArquivo), origem), data), totalRegistro), tempoExecucaoMs)
      == HistoricoDe(nomeArquivo, origem, data, totalRegistro, tempoExecucaoMs)
  {
  }
}
