/** `CotacaoService`: the import that reconciles decoded JSON items into the
    price table and writes one audit row per completed run, and the range
    query mapped to transfer records. */
module CotacaoService {
  import opened Results
  import opened Dates
  import opened Decimals
  import opened Seqs
  import opened Entities
  import opened Dao
  import opened CotacaoSelect
  import opened Utils
  import opened FileUtils

  const OrigemCepea: string := "CEPEA"
  const TipoRobusta: string := "Café Robusta"

  /** The clock readings of one run: the two `currentTimeMillis` calls, the
      current date (read once per run here) and the audit timestamp. */
  datatype Clock = Clock(startMs: int, endMs: int, today: Date, now: LocalDateTime)

  /** What one input item did to the store. */
  datatype Efeito = Ignorado | Salvo(store: Store)

  /** The store after the loop and either the count or the exception. */
  datatype Run = Run(store: Store, outcome: Result<nat>)

  /** The store after `importarDeJson` and either the audit row or the
      exception it throws. */
  datatype Importacao = Importacao(store: Store, outcome: Result<ImpHistorico>)

  // ---------------------------------------------------------------------
  // One item
  // ---------------------------------------------------------------------

  /** An item the loop does not skip. */
  predicate Presente(item: Option<CotacaoCafeDto>) {
    item.Some? && item.value.mesAno.Some? && item.value.valor.Some?
  }

  /** The (date, source) pair the reconciliation is keyed on. */
  function Chave(c: CotacaoCafe): (Option<Date>, Option<string>) {
    (c.dataReferencia, c.origemDado)
  }

  /** The row the import creates for a month it has not seen. */
  function NovaLinha(id: nat, data: Date, valor: Decimal, today: Date): CotacaoCafe {
    CotacaoCafe(Some(id), Some(data), Some(TipoRobusta), Some(valor), None, Some(OrigemCepea), Some(today))
  }

  /** The setter calls of the loop body: a looked-up entity without id gets
      every field set, one with id gets a new price and date stamp. */
  function Preparar(cotacao: CotacaoCafe, data: Date, valor: Option<Decimal>, today: Date): (r: CotacaoCafe)
    ensures r.id == cotacao.id
    ensures cotacao.id.None? ==>
      r == CotacaoCafe(None, Some(data), Some(TipoRobusta), valor, None, Some(OrigemCepea), Some(today))
    ensures cotacao.id.Some? ==>
      (Chave(r) == Chave(cotacao) && r.tipoCafe == cotacao.tipoCafe
       && r.variacao == cotacao.variacao && r.valor == valor && r.criadoEm == Some(today))
  {
    if cotacao.id.None? then
      SetCriadoEm(SetOrigemDado(SetVariacao(SetValor(SetTipoCafe(SetDataReferencia(
        cotacao, Some(data)), Some(TipoRobusta)), valor), None), Some(OrigemCepea)), Some(today))
    else
      SetCriadoEm(SetValor(cotacao, valor), Some(today))
  }

  /** `salvar`: `insert` for an entity without id, `update` otherwise. */
  function Salvar(s: Store, c: CotacaoCafe): (r: Result<Store>)
    ensures c.id.None? ==> (r.Ok? <==> CotacaoPersistable(c))
    ensures c.id.Some? ==>
      (r.Ok? <==> FindById(s.cotacoes, CotacaoId, c.id.value).Some? && CotacaoPersistable(c))
    ensures r.Ok? ==> r.value.historicos == s.historicos
    ensures r.Ok? && c.id.None? ==>
      r.value.cotacoes == s.cotacoes + [c.(id := Some(s.nextCotacaoId))]
    ensures r.Ok? && c.id.Some? ==>
      exists i :: 0 <= i < |s.cotacoes| && s.cotacoes[i].id == c.id && r.value.cotacoes == s.cotacoes[i := c]
    ensures r.Ok? && Valid(s) ==> Valid(r.value)
  {
    if c.id.None? then
      var (s', _) :- InsertCotacao(s, c);
      Ok(s')
    else
      var (s', _) :- UpdateCotacao(s, c);
      Ok(s')
  }

  /** One pass of the loop body. A `null` array element is dereferenced and
      throws; an item without month or price is skipped; otherwise the
      month is parsed, looked up under "CEPEA", prepared and saved. */
  function ProcessarItem(s: Store, item: Option<CotacaoCafeDto>, today: Date): (r: Result<Efeito>)
    ensures item.None? ==> r == Err(NullPointer)
    ensures item.Some? && !Presente(item) ==> r == Ok(Ignorado)
    ensures Presente(item) && r.Ok? ==> r.value.Salvo? && ParseMesAno(item.value.mesAno).Ok?
    ensures r.Ok? && r.value.Salvo? ==> r.value.store.historicos == s.historicos
  {
    if item.None? then Err(NullPointer)
    else if !Presente(item) then Ok(Ignorado)
    else
      var dto := item.value;
      var data :- ParseMesAno(dto.mesAno);
      var cotacao :- BuscarPorDataEOrigem(s, data, OrigemCepea, today);
      var s' :- Salvar(s, Preparar(cotacao, data, dto.valor, today));
      Ok(Salvo(s'))
  }

  /** The month of a present item, when it parses. */
  function MesDe(item: Option<CotacaoCafeDto>): Result<Date>
    requires Presente(item)
  {
    ParseMesAno(item.value.mesAno)
  }

  /** Some CEPEA row is dated `data`. */
  predicate Coberto(s: Store, data: Date) {
    exists i :: 0 <= i < |s.cotacoes| && TemChave(s.cotacoes[i], data, OrigemCepea)
  }

  /** The reconciliation invariant: at most one CEPEA row per date. */
  predicate UmaCepeaPorMes(s: Store) {
    forall i, j :: 0 <= i < j < |s.cotacoes| && s.cotacoes[i].origemDado == Some(OrigemCepea)
      ==> Chave(s.cotacoes[i]) != Chave(s.cotacoes[j])
  }

  /** `s'` keeps every row of `s`, at the same position, under the same key. */
  predicate ChavesMantidas(s: Store, s': Store) {
    && |s.cotacoes| <= |s'.cotacoes|
    && forall i :: 0 <= i < |s.cotacoes| ==> Chave(s'.cotacoes[i]) == Chave(s.cotacoes[i])
  }

  lemma ChavesMantidasTransitivas(s1: Store, s2: Store, s3: Store)
    requires ChavesMantidas(s1, s2) && ChavesMantidas(s2, s3)
    ensures ChavesMantidas(s1, s3)
  {
  }

  lemma CobertoMantido(s: Store, s': Store, data: Date)
    requires ChavesMantidas(s, s') && Coberto(s, data)
    ensures Coberto(s', data)
  {
    var i :| 0 <= i < |s.cotacoes| && TemChave(s.cotacoes[i], data, OrigemCepea);
    assert Chave(s'.cotacoes[i]) == Chave(s.cotacoes[i]);
    assert TemChave(s'.cotacoes[i], data, OrigemCepea);
  }

  /** A present month with no CEPEA row yet is inserted as a new row: the
      parsed date, "Café Robusta", the input price, no variation, "CEPEA",
      today's date, under the next id. Nothing else changes. */
  lemma ItemNovo(s: Store, item: Option<CotacaoCafeDto>, today: Date, data: Date)
    requires Presente(item) && MesDe(item) == Ok(data)
    requires forall i :: 0 <= i < |s.cotacoes| ==> !TemChave(s.cotacoes[i], data, OrigemCepea)
    ensures ProcessarItem(s, item, today) == Ok(Salvo(s.(
      cotacoes := s.cotacoes + [NovaLinha(s.nextCotacaoId, data, item.value.valor.value, today)],
      nextCotacaoId := s.nextCotacaoId + 1)))
  {
    var c := Preparar(NovaCotacao(today), data, item.value.valor, today);
    NovaLinhaPersistivel(c, data, item.value.valor.value, today);
    var n := NovaLinha(s.nextCotacaoId, data, item.value.valor.value, today);
    assert c.(id := Some(s.nextCotacaoId)) == n;
    SalvarNovo(s, c);
    ItemSalvo(s, item, today, data, NovaCotacao(today),
      s.(cotacoes := s.cotacoes + [n], nextCotacaoId := s.nextCotacaoId + 1));
  }

  /** Once the month, the looked-up row and the save are known, the item
      step is that save. */
  lemma ItemSalvo(s: Store, item: Option<CotacaoCafeDto>, today: Date, data: Date, c: CotacaoCafe, s': Store)
    requires Presente(item) && MesDe(item) == Ok(data)
    requires BuscarPorDataEOrigem(s, data, OrigemCepea, today) == Ok(c)
    requires Salvar(s, Preparar(c, data, item.value.valor, today)) == Ok(s')
    ensures ProcessarItem(s, item, today) == Ok(Salvo(s'))
  {
  }

  /** Saving a persistable entity without id appends it under the next id. */
  lemma SalvarNovo(s: Store, c: CotacaoCafe)
    requires c.id.None? && CotacaoPersistable(c)
    ensures Salvar(s, c) == Ok(s.(cotacoes := s.cotacoes + [c.(id := Some(s.nextCotacaoId))],
                                  nextCotacaoId := s.nextCotacaoId + 1))
  {
  }

  lemma NovaLinhaPersistivel(c: CotacaoCafe, data: Date, valor: Decimal, today: Date)
    requires ValidDate(data)
    requires c == CotacaoCafe(None, Some(data), Some(TipoRobusta), Some(valor), None, Some(OrigemCepea), Some(today))
    ensures CotacaoPersistable(c)
  {
    assert |TipoRobusta| == 12 && |OrigemCepea| == 5;
  }

  /** A present month whose CEPEA row is `s.cotacoes[i]` (and no other)
      updates that row in place: new price and date stamp, every other field
      and every other row as before, no row added. */
  lemma ItemExistente(s: Store, item: Option<CotacaoCafeDto>, today: Date, data: Date, i: nat)
    requires Valid(s)
    requires Presente(item) && MesDe(item) == Ok(data)
    requires i < |s.cotacoes| && TemChave(s.cotacoes[i], data, OrigemCepea)
    requires forall j :: 0 <= j < |s.cotacoes| && j != i ==> !TemChave(s.cotacoes[j], data, OrigemCepea)
    ensures ProcessarItem(s, item, today) == Ok(Salvo(s.(
      cotacoes := s.cotacoes[i := s.cotacoes[i].(valor := item.value.valor, criadoEm := Some(today))])))
  {
    var linha := s.cotacoes[i];
    var achado := BuscarPorDataEOrigem(s, data, OrigemCepea, today);
    assert achado == Ok(linha);
    assert linha.id.Some?;
    var c := Preparar(linha, data, item.value.valor, today);
    assert c == linha.(valor := item.value.valor, criadoEm := Some(today));
    assert CotacaoPersistable(c);
    var k := FindById(s.cotacoes, CotacaoId, linha.id.value);
    assert k == Some(i) by {
      assert k.Some?;
      assert CotacaoId(s.cotacoes[k.value]) == CotacaoId(s.cotacoes[i]);
    }
  }

  /** Under the invariant, a present, parseable item either inserts its
      month (when uncovered) or updates the one row of its month. */
  lemma ItemClassificado(s: Store, item: Option<CotacaoCafeDto>, today: Date)
    requires Valid(s) && UmaCepeaPorMes(s)
    requires Presente(item) && MesDe(item).Ok?
    ensures var data := MesDe(item).value;
      !Coberto(s, data) ==> ProcessarItem(s, item, today) == Ok(Salvo(s.(
        cotacoes := s.cotacoes + [NovaLinha(s.nextCotacaoId, data, item.value.valor.value, today)],
        nextCotacaoId := s.nextCotacaoId + 1)))
    ensures var data := MesDe(item).value;
      Coberto(s, data) ==> exists i :: (0 <= i < |s.cotacoes| && TemChave(s.cotacoes[i], data, OrigemCepea)
        && ProcessarItem(s, item, today) == Ok(Salvo(s.(
          cotacoes := s.cotacoes[i := s.cotacoes[i].(valor := item.value.valor, criadoEm := Some(today))]))))
  {
    var data := MesDe(item).value;
    if Coberto(s, data) {
      var i :| 0 <= i < |s.cotacoes| && TemChave(s.cotacoes[i], data, OrigemCepea);
      forall j | 0 <= j < |s.cotacoes| && j != i ensures !TemChave(s.cotacoes[j], data, OrigemCepea) {
        if j < i {
          assert Chave(s.cotacoes[j]) != Chave(s.cotacoes[i]) || s.cotacoes[j].origemDado != Some(OrigemCepea);
        } else {
          assert Chave(s.cotacoes[i]) != Chave(s.cotacoes[j]);
        }
      }
      ItemExistente(s, item, today, data, i);
    } else {
      ItemNovo(s, item, today, data);
    }
  }

  /** Re-pricing one row keeps every key, hence the invariant. */
  lemma AtualizarMantemChaves(s: Store, i: nat, valor: Option<Decimal>, today: Date)
    requires i < |s.cotacoes| && UmaCepeaPorMes(s)
    ensures var s' := s.(cotacoes := s.cotacoes[i := s.cotacoes[i].(valor := valor, criadoEm := Some(today))]);
      ChavesMantidas(s, s') && UmaCepeaPorMes(s') && |s'.cotacoes| == |s.cotacoes|
  {
    var s' := s.(cotacoes := s.cotacoes[i := s.cotacoes[i].(valor := valor, criadoEm := Some(today))]);
    assert forall j :: 0 <= j < |s.cotacoes| ==> Chave(s'.cotacoes[j]) == Chave(s.cotacoes[j]);
    assert forall j :: 0 <= j < |s.cotacoes| ==> s'.cotacoes[j].origemDado == s.cotacoes[j].origemDado;
  }

  /** Appending a CEPEA row for an uncovered date keeps every key and the
      invariant, and covers that date. */
  lemma AcrescentarMantemChaves(s: Store, n: CotacaoCafe, data: Date)
    requires UmaCepeaPorMes(s) && !Coberto(s, data)
    requires TemChave(n, data, OrigemCepea)
    ensures var s' := s.(cotacoes := s.cotacoes + [n]);
      ChavesMantidas(s, s') && UmaCepeaPorMes(s') && Coberto(s', data)
  {
    var s' := s.(cotacoes := s.cotacoes + [n]);
    assert s'.cotacoes[|s.cotacoes|] == n;
    forall a, b | 0 <= a < b < |s'.cotacoes| && s'.cotacoes[a].origemDado == Some(OrigemCepea)
      ensures Chave(s'.cotacoes[a]) != Chave(s'.cotacoes[b])
    {
      if b == |s.cotacoes| {
        assert !TemChave(s.cotacoes[a], data, OrigemCepea);
      }
    }
  }

  /** The step facts the fold relies on: under the invariant a saved item
      keeps the store valid, keeps the invariant and every existing key,
      leaves the audit table alone and covers the item's month. */
  lemma ItemPreserva(s: Store, item: Option<CotacaoCafeDto>, today: Date)
    requires Valid(s) && UmaCepeaPorMes(s)
    requires ProcessarItem(s, item, today).Ok?
    ensures var e := ProcessarItem(s, item, today).value;
      e.Salvo? ==> && Valid(e.store) && UmaCepeaPorMes(e.store) && ChavesMantidas(s, e.store)
                   && e.store.historicos == s.historicos
                   && Coberto(e.store, MesDe(item).value)
    ensures var e := ProcessarItem(s, item, today).value;
      e.Salvo? && Coberto(s, MesDe(item).value) ==> |e.store.cotacoes| == |s.cotacoes|
  {
    var e := ProcessarItem(s, item, today).value;
    if e.Salvo? {
      var data := MesDe(item).value;
      ItemClassificado(s, item, today);
      ValidAfterSave(s, item, today);
      if Coberto(s, data) {
        var i :| 0 <= i < |s.cotacoes| && TemChave(s.cotacoes[i], data, OrigemCepea)
          && e.store.cotacoes == s.cotacoes[i := s.cotacoes[i].(valor := item.value.valor, criadoEm := Some(today))];
        AtualizarMantemChaves(s, i, item.value.valor, today);
        CobertoMantido(s, e.store, data);
      } else {
        AcrescentarMantemChaves(s, NovaLinha(s.nextCotacaoId, data, item.value.valor.value, today), data);
      }
    }
  }

  lemma ValidAfterSave(s: Store, item: Option<CotacaoCafeDto>, today: Date)
    requires Valid(s) && ProcessarItem(s, item, today).Ok?
    ensures ProcessarItem(s, item, today).value.Salvo? ==> Valid(ProcessarItem(s, item, today).value.store)
  {
  }

  /** Under the invariant a step can fail only because of its input: a
      `null` element or a month label that does not parse. */
  lemma ItemFalhaPorEntrada(s: Store, item: Option<CotacaoCafeDto>, today: Date)
    requires Valid(s) && UmaCepeaPorMes(s)
    requires ProcessarItem(s, item, today).Err?
    ensures item.None? || (Presente(item) && MesDe(item).Err?)
  {
    if Presente(item) && MesDe(item).Ok? {
      ItemClassificado(s, item, today);
    }
  }

  // ---------------------------------------------------------------------
  // The loop
  // ---------------------------------------------------------------------

  /** Items that parse whenever they are present, and are never `null`. */
  predicate Aceito(item: Option<CotacaoCafeDto>) {
    item.Some? && (Presente(item) ==> MesDe(item).Ok?)
  }

  /** The `for` loop of `importarDeJson`, from counter `total`: stops at the
      first exception, keeping the writes made before it. */
  function Processar(s: Store, dados: seq<Option<CotacaoCafeDto>>, today: Date, total: nat): (r: Run)
    ensures r.outcome.Ok? ==> r.outcome.value == total + |Filter(Presente, dados)|
    ensures r.store.historicos == s.historicos
    decreases |dados|
  {
    if dados == [] then Run(s, Ok(total))
    else
      assert dados == [dados[0]] + dados[1..];
      FilterAppend(Presente, [dados[0]], dados[1..]);
      match ProcessarItem(s, dados[0], today)
      case Err(e) => Run(s, Err(e))
      case Ok(Ignorado) => Processar(s, dados[1..], today, total)
      case Ok(Salvo(s')) => Processar(s', dados[1..], today, total + 1)
  }

  /** A run completes only when no item was `null` and every present
      item's month parsed. */
  lemma {:induction false} ProcessarAceita(s: Store, dados: seq<Option<CotacaoCafeDto>>, today: Date, total: nat)
    requires Processar(s, dados, today, total).outcome.Ok?
    ensures forall k :: 0 <= k < |dados| ==> Aceito(dados[k])
    decreases |dados|
  {
    if dados != [] {
      match ProcessarItem(s, dados[0], today)
      case Ok(Ignorado) =>
        ProcessarAceita(s, dados[1..], today, total);
        AceitosCauda(dados);
      case Ok(Salvo(s')) =>
        ProcessarAceita(s', dados[1..], today, total + 1);
        AceitosCauda(dados);
    }
  }

  lemma AceitosCauda(dados: seq<Option<CotacaoCafeDto>>)
    requires dados != [] && Aceito(dados[0])
    requires forall k :: 0 <= k < |dados[1..]| ==> Aceito(dados[1..][k])
    ensures forall k :: 0 <= k < |dados| ==> Aceito(dados[k])
  {
    forall k | 1 <= k < |dados| ensures Aceito(dados[k]) {
      assert dados[k] == dados[1..][k - 1];
    }
  }

  /** A skipped item changes nothing: neither the store nor the counter. */
  lemma ProcessarIgnora(s: Store, item: Option<CotacaoCafeDto>, resto: seq<Option<CotacaoCafeDto>>,
                        today: Date, total: nat)
    requires item.Some? && !Presente(item)
    ensures Processar(s, [item] + resto, today, total) == Processar(s, resto, today, total)
  {
    assert ([item] + resto)[1..] == resto;
  }

  /** Running the loop over `a + b` is running it over `a`, then over `b`
      from where `a` left the store and the counter. */
  lemma {:induction false} ProcessarConcatena(s: Store, a: seq<Option<CotacaoCafeDto>>,
                                              b: seq<Option<CotacaoCafeDto>>, today: Date, total: nat)
    ensures var ra := Processar(s, a, today, total);
      Processar(s, a + b, today, total) ==
        if ra.outcome.Ok? then Processar(ra.store, b, today, ra.outcome.value) else ra
    decreases |a|
  {
    if a == [] {
      assert a + b == b;
    } else {
      assert (a + b)[0] == a[0] && (a + b)[1..] == a[1..] + b;
      match ProcessarItem(s, a[0], today)
      case Err(_) =>
      case Ok(Ignorado) =>
        ProcessarConcatena(s, a[1..], b, today, total);
      case Ok(Salvo(s')) =>
        ProcessarConcatena(s', a[1..], b, today, total + 1);
    }
  }

  /** Item `k` is where the run throws: the items before it complete, it
      fails on the store they leave, and that store is the run's result. */
  predicate FalhaEm(s: Store, dados: seq<Option<CotacaoCafeDto>>, today: Date, total: nat, k: nat)
    requires k < |dados|
  {
    var antes := Processar(s, dados[..k], today, total);
    && antes.outcome.Ok?
    && ProcessarItem(antes.store, dados[k], today).Err?
    && Processar(s, dados, today, total) == Run(antes.store, Err(ProcessarItem(antes.store, dados[k], today).error))
  }

  /** A failing run stops at some item `k`: the store it leaves is exactly
      the store after the items before `k`, and item `k` is the one that
      threw. */
  lemma {:induction false} ProcessarFalha(s: Store, dados: seq<Option<CotacaoCafeDto>>, today: Date, total: nat)
    requires Processar(s, dados, today, total).outcome.Err?
    ensures exists k :: 0 <= k < |dados| && FalhaEm(s, dados, today, total, k)
    decreases |dados|
  {
    assert dados != [];
    assert dados[..0] == [];
    match ProcessarItem(s, dados[0], today)
    case Err(e) =>
      assert FalhaEm(s, dados, today, total, 0);
    case Ok(Ignorado) =>
      ProcessarFalha(s, dados[1..], today, total);
      var k :| 0 <= k < |dados[1..]| && FalhaEm(s, dados[1..], today, total, k);
      PrefixoPasso(dados, k);
      assert FalhaEm(s, dados, today, total, k + 1);
    case Ok(Salvo(s')) =>
      ProcessarFalha(s', dados[1..], today, total + 1);
      var k :| 0 <= k < |dados[1..]| && FalhaEm(s', dados[1..], today, total + 1, k);
      PrefixoPasso(dados, k);
      assert FalhaEm(s, dados, today, total, k + 1);
  }

  lemma PrefixoPasso<T>(dados: seq<T>, k: nat)
    requires k < |dados| - 1
    ensures dados[..k + 1] != [] && dados[..k + 1][0] == dados[0]
    ensures dados[..k + 1][1..] == dados[1..][..k]
    ensures dados[k + 1] == dados[1..][k]
  {
  }

  /** The loop keeps the store valid and the invariant, and never moves or
      re-keys a row, whether it completes or throws. */
  lemma {:induction false} ProcessarPreserva(s: Store, dados: seq<Option<CotacaoCafeDto>>, today: Date, total: nat)
    requires Valid(s) && UmaCepeaPorMes(s)
    ensures var r := Processar(s, dados, today, total);
      Valid(r.store) && UmaCepeaPorMes(r.store) && ChavesMantidas(s, r.store)
    decreases |dados|
  {
    if dados != [] {
      match ProcessarItem(s, dados[0], today)
      case Err(_) =>
      case Ok(Ignorado) =>
        ProcessarPreserva(s, dados[1..], today, total);
      case Ok(Salvo(s')) =>
        ItemPreserva(s, dados[0], today);
        ProcessarPreserva(s', dados[1..], today, total + 1);
        ChavesMantidasTransitivas(s, s', Processar(s', dados[1..], today, total + 1).store);
    }
  }

  /** A completed run leaves a CEPEA row for the month of every present
      item. */
  lemma {:induction false} ProcessarCobre(s: Store, dados: seq<Option<CotacaoCafeDto>>, today: Date, total: nat)
    requires Valid(s) && UmaCepeaPorMes(s)
    requires Processar(s, dados, today, total).outcome.Ok?
    ensures TodosCobertos(Processar(s, dados, today, total).store, dados)
    decreases |dados|
  {
    if dados != [] {
      var fim := Processar(s, dados, today, total).store;
      match ProcessarItem(s, dados[0], today)
      case Ok(Ignorado) =>
        ProcessarCobre(s, dados[1..], today, total);
        CobertosCauda(fim, dados);
      case Ok(Salvo(s')) =>
        ItemPreserva(s, dados[0], today);
        ProcessarPreserva(s', dados[1..], today, total + 1);
        ProcessarCobre(s', dados[1..], today, total + 1);
        CobertoMantido(s', fim, MesDe(dados[0]).value);
        CobertosCauda(fim, dados);
    }
  }

  /** Every present item whose month parses has its CEPEA row in `s`. */
  predicate TodosCobertos(s: Store, dados: seq<Option<CotacaoCafeDto>>) {
    forall k :: 0 <= k < |dados| && Presente(dados[k]) && MesDe(dados[k]).Ok? ==> Coberto(s, MesDe(dados[k]).value)
  }

  lemma CobertosCauda(s: Store, dados: seq<Option<CotacaoCafeDto>>)
    requires dados != [] && TodosCobertos(s, dados[1..])
    requires Presente(dados[0]) && MesDe(dados[0]).Ok? ==> Coberto(s, MesDe(dados[0]).value)
    ensures TodosCobertos(s, dados)
  {
    forall k | 1 <= k < |dados| && Presente(dados[k]) && MesDe(dados[k]).Ok?
      ensures Coberto(s, MesDe(dados[k]).value)
    {
      assert dados[k] == dados[1..][k - 1];
    }
  }

  /** When every item is accepted and every present month already has its
      CEPEA row, the loop succeeds and only updates: no row is added. */
  lemma {:induction false} ProcessarSoAtualiza(s: Store, dados: seq<Option<CotacaoCafeDto>>, today: Date, total: nat)
    requires Valid(s) && UmaCepeaPorMes(s)
    requires forall k :: 0 <= k < |dados| ==> Aceito(dados[k])
    requires TodosCobertos(s, dados)
    ensures Processar(s, dados, today, total).outcome.Ok?
    ensures |Processar(s, dados, today, total).store.cotacoes| == |s.cotacoes|
    decreases |dados|
  {
    if dados != [] {
      var item := dados[0];
      AceitosNaCauda(dados);
      if ProcessarItem(s, item, today).Err? {
        ItemFalhaPorEntrada(s, item, today);
        assert false;
      }
      match ProcessarItem(s, item, today)
      case Ok(Ignorado) =>
        CobertosMantidos(s, s, dados);
        ProcessarSoAtualiza(s, dados[1..], today, total);
      case Ok(Salvo(s')) =>
        ItemPreserva(s, item, today);
        CobertosMantidos(s, s', dados);
        ProcessarSoAtualiza(s', dados[1..], today, total + 1);
    }
  }

  /** The converse of `ProcessarAceita`: on a valid store that keeps the
      invariant, a run over accepted items always completes, because the
      lookup and the save cannot fail there. */
  lemma {:induction false} ProcessarCompleta(s: Store, dados: seq<Option<CotacaoCafeDto>>, today: Date, total: nat)
    requires Valid(s) && UmaCepeaPorMes(s)
    requires forall k :: 0 <= k < |dados| ==> Aceito(dados[k])
    ensures Processar(s, dados, today, total).outcome.Ok?
    decreases |dados|
  {
    if dados != [] {
      var item := dados[0];
      AceitosNaCauda(dados);
      if ProcessarItem(s, item, today).Err? {
        ItemFalhaPorEntrada(s, item, today);
        assert false;
      }
      match ProcessarItem(s, item, today)
      case Ok(Ignorado) =>
        ProcessarCompleta(s, dados[1..], today, total);
      case Ok(Salvo(s')) =>
        ItemPreserva(s, item, today);
        ProcessarCompleta(s', dados[1..], today, total + 1);
    }
  }

  lemma AceitosNaCauda(dados: seq<Option<CotacaoCafeDto>>)
    requires dados != [] && forall k :: 0 <= k < |dados| ==> Aceito(dados[k])
    ensures Aceito(dados[0]) && forall k :: 0 <= k < |dados[1..]| ==> Aceito(dados[1..][k])
  {
    forall k | 0 <= k < |dados[1..]| ensures Aceito(dados[1..][k]) {
      assert dados[1..][k] == dados[k + 1];
    }
  }

  /** Coverage survives any step that keeps the keys, for the whole list
      and for its tail. */
  lemma CobertosMantidos(s: Store, s': Store, dados: seq<Option<CotacaoCafeDto>>)
    requires ChavesMantidas(s, s') && TodosCobertos(s, dados)
    ensures TodosCobertos(s', dados)
    ensures dados != [] ==> TodosCobertos(s', dados[1..])
  {
    forall k | 0 <= k < |dados| && Presente(dados[k]) && MesDe(dados[k]).Ok?
      ensures Coberto(s', MesDe(dados[k]).value)
    {
      CobertoMantido(s, s', MesDe(dados[k]).value);
    }
    if dados != [] {
      forall k | 0 <= k < |dados[1..]| && Presente(dados[1..][k]) && MesDe(dados[1..][k]).Ok?
        ensures Coberto(s', MesDe(dados[1..][k]).value)
      {
        assert dados[1..][k] == dados[k + 1];
      }
    }
  }

  // ---------------------------------------------------------------------
  // importarDeJson
  // ---------------------------------------------------------------------

  /** The audit row of a completed run, before it gets its id: the no-arg
      constructor followed by the five setters. */
  function Historico(nomeArquivo: string, total: nat, clock: Clock): (h: ImpHistorico)
    ensures h == HistoricoDe(Some(nomeArquivo), Some(OrigemCepea), Some(clock.now), Some(total),
                             Some(clock.endMs - clock.startMs))
    ensures HistoricoPersistable(h) <==> |nomeArquivo| <= NomeArquivoMaxLength
  {
    SettersMatchConstructor(Some(nomeArquivo), Some(OrigemCepea), Some(clock.now), Some(total),
                            Some(clock.endMs - clock.startMs));
    SetTempoExecucaoMs(SetTotalRegistro(SetData(SetOrigem(SetNomeArquivo(
      NovoHistorico(), Some(nomeArquivo)), Some(OrigemCepea)), Some(clock.now)), Some(total)),
      Some(clock.endMs - clock.startMs))
  }

  /** `importarDeJson(pathJson)`: the file name is taken from the path and
      the file decoded (`dados`, an error when reading fails) before any
      write; then the loop runs; when it completes, one audit row is
      inserted. An exception leaves the writes made before it in place. */
  function ImportarDeJson(s: Store, pathJson: string, dados: Result<seq<Option<CotacaoCafeDto>>>,
                          clock: Clock): (r: Importacao)
    ensures FileName(pathJson).Err? || dados.Err? ==> r.store == s && r.outcome.Err?
    ensures r.outcome.Ok? <==>
      && FileName(pathJson).Ok? && dados.Ok?
      && Processar(s, dados.value, clock.today, 0).outcome.Ok?
      && |FileName(pathJson).value| <= NomeArquivoMaxLength
    ensures FileName(pathJson).Ok? && dados.Ok? && r.outcome.Err? ==>
      r.store == Processar(s, dados.value, clock.today, 0).store
    ensures r.outcome.Err? ==> r.store.historicos == s.historicos
    ensures r.outcome.Ok? ==>
      && FileName(pathJson).Ok? && dados.Ok?
      && var h := r.outcome.value;
      && h.id.Some?
      && h.nomeArquivo == Some(FileName(pathJson).value)
      && h.origem == Some(OrigemCepea)
      && h.data == Some(clock.now)
      && h.totalRegistro == Some(|Filter(Presente, dados.value)|)
      && h.tempoExecucaoMs == Some(clock.endMs - clock.startMs)
      && r.store.historicos == s.historicos + [h]
      && r.store.cotacoes == Processar(s, dados.value, clock.today, 0).store.cotacoes
  {
    match FileName(pathJson)
    case Err(e) => Importacao(s, Err(e))
    case Ok(nomeArquivo) =>
      match dados
      case Err(e) => Importacao(s, Err(e))
      case Ok(itens) =>
        var run := Processar(s, itens, clock.today, 0);
        match run.outcome
        case Err(e) => Importacao(run.store, Err(e))
        case Ok(total) =>
          match InsertHistorico(run.store, Historico(nomeArquivo, total, clock))
          case Err(e) => Importacao(run.store, Err(e))
          case Ok((s', h)) => Importacao(s', Ok(h))
  }

  /** An import of a decoded file into a valid store succeeds exactly when
      no item is `null`, every present month parses and the file name fits
      its column. */
  lemma ImportarSucesso(s: Store, pathJson: string, itens: seq<Option<CotacaoCafeDto>>, clock: Clock)
    requires Valid(s) && UmaCepeaPorMes(s) && FileName(pathJson).Ok?
    ensures ImportarDeJson(s, pathJson, Ok(itens), clock).outcome.Ok? <==>
      (forall k :: 0 <= k < |itens| ==> Aceito(itens[k]))
      && |FileName(pathJson).value| <= NomeArquivoMaxLength
  {
    if forall k :: 0 <= k < |itens| ==> Aceito(itens[k]) {
      ProcessarCompleta(s, itens, clock.today, 0);
    }
    if Processar(s, itens, clock.today, 0).outcome.Ok? {
      ProcessarAceita(s, itens, clock.today, 0);
    }
  }

  /** An import keeps the store valid and keeps at most one CEPEA row per
      month, even when the file repeats a month. */
  lemma ImportarPreserva(s: Store, pathJson: string, dados: Result<seq<Option<CotacaoCafeDto>>>, clock: Clock)
    requires Valid(s) && UmaCepeaPorMes(s)
    ensures Valid(ImportarDeJson(s, pathJson, dados, clock).store)
    ensures UmaCepeaPorMes(ImportarDeJson(s, pathJson, dados, clock).store)
  {
    if FileName(pathJson).Ok? && dados.Ok? {
      ProcessarPreserva(s, dados.value, clock.today, 0);
    }
  }

  /** A failed import wrote no audit row, and what it wrote to the price
      table is the effect of the items before the one that failed. */
  lemma ImportarFalha(s: Store, pathJson: string, itens: seq<Option<CotacaoCafeDto>>, clock: Clock)
    requires FileName(pathJson).Ok?
    requires Processar(s, itens, clock.today, 0).outcome.Err?
    ensures var r := ImportarDeJson(s, pathJson, Ok(itens), clock);
      && r.outcome.Err?
      && r.store.historicos == s.historicos
      && exists k :: 0 <= k < |itens| && r.store == Processar(s, itens[..k], clock.today, 0).store
  {
    ProcessarFalha(s, itens, clock.today, 0);
  }

  /** Importing the same file again adds no price row and exactly one audit
      row. */
  lemma ReimportarIdempotente(s: Store, pathJson: string, dados: Result<seq<Option<CotacaoCafeDto>>>,
                              clock1: Clock, clock2: Clock)
    requires Valid(s) && UmaCepeaPorMes(s)
    requires ImportarDeJson(s, pathJson, dados, clock1).outcome.Ok?
    ensures var s1 := ImportarDeJson(s, pathJson, dados, clock1).store;
      var r2 := ImportarDeJson(s1, pathJson, dados, clock2);
      && r2.outcome.Ok?
      && |r2.store.cotacoes| == |s1.cotacoes|
      && |r2.store.historicos| == |s1.historicos| + 1
  {
    var itens := dados.value;
    var nome := FileName(pathJson).value;
    var r1 := ImportarDeJson(s, pathJson, dados, clock1);
    var run1 := Processar(s, itens, clock1.today, 0);
    ProcessarPreserva(s, itens, clock1.today, 0);
    ProcessarCobre(s, itens, clock1.today, 0);
    ProcessarAceita(s, itens, clock1.today, 0);
    var s1 := r1.store;
    assert s1.cotacoes == run1.store.cotacoes;
    ImportarPreserva(s, pathJson, dados, clock1);
    assert ChavesMantidas(run1.store, s1);
    CobertosMantidos(run1.store, s1, itens);
    ProcessarSoAtualiza(s1, itens, clock2.today, 0);
    var run2 := Processar(s1, itens, clock2.today, 0);
    assert run2.outcome == Ok(|Filter(Presente, itens)|);
    assert run1.outcome == Ok(|Filter(Presente, itens)|);
    assert HistoricoPersistable(Historico(nome, |Filter(Presente, itens)|, clock2));
  }

  // ---------------------------------------------------------------------
  // buscarPorPeriodo
  // ---------------------------------------------------------------------

  /** The mapping loop of `buscarPorPeriodo`: each row becomes its date and
      its price rounded HALF_UP to two places; `getValor` throws on a row
      without price. */
  function ParaPeriodo(linhas: seq<CotacaoCafe>): (r: Result<seq<CotacaoCafePeriodo>>)
    ensures r.Ok? <==> forall i :: 0 <= i < |linhas| ==> linhas[i].valor.Some?
    ensures r.Err? ==> r.error == NullPointer
    ensures r.Ok? ==> |r.value| == |linhas| && forall i :: 0 <= i < |linhas| ==>
      && r.value[i].data == linhas[i].dataReferencia
      && Some(r.value[i].valorCafe) == Round(linhas[i].valor, 2)
    decreases |linhas|
  {
    if linhas == [] then Ok([])
    else
      var v :- GetValor(linhas[0]);
      var resto :- ParaPeriodo(linhas[1..]);
      var primeiro := CotacaoCafePeriodo(linhas[0].dataReferencia, Round(Some(v), 2).value);
      assert forall i :: 1 <= i < |linhas| ==> linhas[i] == linhas[1..][i - 1];
      Ok([primeiro] + resto)
  }

  /** `buscarPorPeriodo(dataInicio, dataFim)` of the service. */
  function BuscarPeriodo(s: Store, inicio: Date, fim: Date): (r: Result<seq<CotacaoCafePeriodo>>)
    ensures r.Ok? ==> |r.value| == |CotacaoSelect.BuscarPorPeriodo(s, inicio, fim)|
  {
    ParaPeriodo(CotacaoSelect.BuscarPorPeriodo(s, inicio, fim))
  }

  /** On a valid store every row has a price, so the mapping cannot throw;
      the answer follows the query's order, every date lies in the period,
      and every price has exactly two decimals. */
  lemma BuscarPeriodoValido(s: Store, inicio: Date, fim: Date)
    requires Valid(s)
    ensures var r := BuscarPeriodo(s, inicio, fim);
      && r.Ok?
      && (forall i :: 0 <= i < |r.value| ==>
            r.value[i].data.Some? && ValidDate(r.value[i].data.value)
            && DateLe(inicio, r.value[i].data.value) && DateLe(r.value[i].data.value, fim)
            && r.value[i].valorCafe.scale == 2)
      && (forall i, j :: 0 <= i < j < |r.value| ==> DateLe(r.value[i].data.value, r.value[j].data.value))
  {
    var linhas := CotacaoSelect.BuscarPorPeriodo(s, inicio, fim);
    BuscarPorPeriodoExato(s, inicio, fim);
    forall i | 0 <= i < |linhas|
      ensures linhas[i].valor.Some? && NoPeriodo(linhas[i], inicio, fim) && ValidDate(linhas[i].dataReferencia.value)
    {
      assert linhas[i] in linhas;
      var c :| c in s.cotacoes && NoPeriodo(c, inicio, fim) && linhas[i] == Projecao(c);
      var k :| 0 <= k < |s.cotacoes| && s.cotacoes[k] == c;
      assert CotacaoPersistable(s.cotacoes[k]);
    }
    var r := ParaPeriodo(linhas);
    forall i | 0 <= i < |r.value|
      ensures r.value[i].data == linhas[i].dataReferencia && r.value[i].valorCafe.scale == 2
    {
      assert Some(r.value[i].valorCafe) == Round(linhas[i].valor, 2);
    }
    forall i, j | 0 <= i < j < |r.value| ensures DateLe(r.value[i].data.value, r.value[j].data.value) {
      assert NaoDepois(linhas[i], linhas[j]);
    }
  }
  /** Nothing in the period is left out: every stored row dated in it is
      answered, with its date and its price rounded HALF_UP to two places. */
  lemma BuscarPeriodoCompleto(s: Store, inicio: Date, fim: Date)
    requires Valid(s)
    ensures var r := BuscarPeriodo(s, inicio, fim);
      r.Ok? && forall k :: 0 <= k < |s.cotacoes| && NoPeriodo(s.cotacoes[k], inicio, fim) ==>
        exists i :: (0 <= i < |r.value| && r.value[i].data == s.cotacoes[k].dataReferencia
                     && Some(r.value[i].valorCafe) == Round(s.cotacoes[k].valor, 2))
  {
    var linhas := CotacaoSelect.BuscarPorPeriodo(s, inicio, fim);
    BuscarPeriodoValido(s, inicio, fim);
    BuscarPorPeriodoExato(s, inicio, fim);
    var r := ParaPeriodo(linhas);
    forall k | 0 <= k < |s.cotacoes| && NoPeriodo(s.cotacoes[k], inicio, fim)
      ensures exists i :: (0 <= i < |r.value| && r.value[i].data == s.cotacoes[k].dataReferencia
                           && Some(r.value[i].valorCafe) == Round(s.cotacoes[k].valor, 2))
    {
      var c := s.cotacoes[k];
      assert c in s.cotacoes;
      assert Projecao(c) in linhas;
      var i :| 0 <= i < |linhas| && linhas[i] == Projecao(c);
      assert r.value[i].data == c.dataReferencia;
    }
  }

}
