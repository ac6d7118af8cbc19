/** `DAOController`'s write primitives over an in-memory picture of the two
    tables. Each table is its rows in insertion order plus the next value of
    its identity column; `insert` is `persist` and `update` is `merge`, each
    one unit of work that either applies completely or not at all. */
module Dao {
  import opened Results
  import opened Entities

  datatype Store = Store(
    cotacoes: seq<CotacaoCafe>,
    historicos: seq<ImpHistorico>,
    nextCotacaoId: nat,
    nextHistoricoId: nat)

  /** Every row has an id below the allocator, and no two rows share one. */
  predicate IdsWellFormed<T>(rows: seq<T>, idOf: T -> Option<nat>, next: nat) {
    && (forall i :: 0 <= i < |rows| ==> idOf(rows[i]).Some? && idOf(rows[i]).value < next)
    && (forall i, j :: 0 <= i < j < |rows| ==> idOf(rows[i]) != idOf(rows[j]))
  }

  function CotacaoId(c: CotacaoCafe): Option<nat> { c.id }
  function HistoricoId(h: ImpHistorico): Option<nat> { h.id }

  /** What the database guarantees of its tables at every commit. */
  predicate Valid(s: Store) {
    && IdsWellFormed(s.cotacoes, CotacaoId, s.nextCotacaoId)
    && IdsWellFormed(s.historicos, HistoricoId, s.nextHistoricoId)
    && (forall i :: 0 <= i < |s.cotacoes| ==> CotacaoPersistable(s.cotacoes[i]))
    && (forall i :: 0 <= i < |s.historicos| ==> HistoricoPersistable(s.historicos[i]))
  }

  /** An empty database. */
  function EmptyStore(): (s: Store)
    ensures Valid(s) && s.cotacoes == [] && s.historicos == []
  {
    Store([], [], 1, 1)
  }

  /** The position of the row whose id is `k`, if any. */
  function FindById<T>(rows: seq<T>, idOf: T -> Option<nat>, k: nat): (r: Option<nat>)
    ensures r.Some? ==> r.value < |rows| && idOf(rows[r.value]) == Some(k)
    ensures r.None? ==> forall i :: 0 <= i < |rows| ==> idOf(rows[i]) != Some(k)
    decreases |rows|
  {
    if rows == [] then None
    else if idOf(rows[|rows| - 1]) == Some(k) then Some(|rows| - 1)
    else FindById(rows[..|rows| - 1], idOf, k)
  }

  /** `insert` of a price row: `persist` rejects an entity that already has
      an id, the database rejects one that breaks a column constraint;
      otherwise the row is stored under a fresh id and the very entity,
      now carrying that id, is returned. */
  function InsertCotacao(s: Store, c: CotacaoCafe): (r: Result<(Store, CotacaoCafe)>)
    ensures c.id.Some? ==> r == Err(DetachedEntity)
    ensures c.id.None? && !CotacaoPersistable(c) ==> r == Err(ConstraintViolation)
    ensures r.Ok? <==> c.id.None? && CotacaoPersistable(c)
    ensures r.Ok? ==>
      var (s', saved) := r.value;
      && saved == c.(id := Some(s.nextCotacaoId))
      && s'.cotacoes == s.cotacoes + [saved]
      && s'.historicos == s.historicos && s'.nextHistoricoId == s.nextHistoricoId
    ensures r.Ok? && Valid(s) ==> Valid(r.value.0)
    ensures r.Ok? && Valid(s) ==>
      forall i :: 0 <= i < |s.cotacoes| ==> s.cotacoes[i].id != r.value.1.id
  {
    if c.id.Some? then Err(DetachedEntity)
    else if !CotacaoPersistable(c) then Err(ConstraintViolation)
    else
      var saved := c.(id := Some(s.nextCotacaoId));
      Ok((s.(cotacoes := s.cotacoes + [saved], nextCotacaoId := s.nextCotacaoId + 1), saved))
  }

  /** `insert` of an audit row, as for price rows. */
  function InsertHistorico(s: Store, h: ImpHistorico): (r: Result<(Store, ImpHistorico)>)
    ensures h.id.Some? ==> r == Err(DetachedEntity)
    ensures h.id.None? && !HistoricoPersistable(h) ==> r == Err(ConstraintViolation)
    ensures r.Ok? <==> h.id.None? && HistoricoPersistable(h)
    ensures r.Ok? ==>
      var (s', saved) := r.value;
      && saved == h.(id := Some(s.nextHistoricoId))
      && s'.historicos == s.historicos + [saved]
      && s'.cotacoes == s.cotacoes && s'.nextCotacaoId == s.nextCotacaoId
    ensures r.Ok? && Valid(s) ==> Valid(r.value.0)
  {
    if h.id.Some? then Err(DetachedEntity)
    else if !HistoricoPersistable(h) then Err(ConstraintViolation)
    else
      var saved := h.(id := Some(s.nextHistoricoId));
      Ok((s.(historicos := s.historicos + [saved], nextHistoricoId := s.nextHistoricoId + 1), saved))
  }

  /** `update` of a price row, i.e. `merge`: an entity without id is copied
      into a new row; one whose id is stored overwrites that row in place;
      one whose id is not stored is rejected. The merged row is returned. */
  function UpdateCotacao(s: Store, c: CotacaoCafe): (r: Result<(Store, CotacaoCafe)>)
    ensures c.id.None? ==> r == InsertCotacao(s, c)
    ensures c.id.Some? && FindById(s.cotacoes, CotacaoId, c.id.value).None? ==> r == Err(UnknownEntity)
    ensures c.id.Some? && FindById(s.cotacoes, CotacaoId, c.id.value).Some? ==>
      (r.Ok? <==> CotacaoPersistable(c))
    ensures r.Ok? && c.id.Some? ==>
      var (s', merged) := r.value;
      && merged == c
      && |s'.cotacoes| == |s.cotacoes|
      && (exists i :: 0 <= i < |s.cotacoes| && s.cotacoes[i].id == c.id && s'.cotacoes == s.cotacoes[i := c])
      && s'.historicos == s.historicos
      && s'.nextCotacaoId == s.nextCotacaoId && s'.nextHistoricoId == s.nextHistoricoId
    ensures r.Ok? && Valid(s) ==> Valid(r.value.0)
  {
    if c.id.None? then InsertCotacao(s, c)
    else
      match FindById(s.cotacoes, CotacaoId, c.id.value)
      case None => Err(UnknownEntity)
      case Some(i) =>
        if !CotacaoPersistable(c) then Err(ConstraintViolation)
        else
          var s' := s.(cotacoes := s.cotacoes[i := c]);
          assert Valid(s) ==> Valid(s') by {
            if Valid(s) {
              forall a, b | 0 <= a < b < |s'.cotacoes|
                ensures CotacaoId(s'.cotacoes[a]) != CotacaoId(s'.cotacoes[b])
              {
                if a != i && b != i {
                  assert s'.cotacoes[a] == s.cotacoes[a] && s'.cotacoes[b] == s.cotacoes[b];
                }
              }
            }
          }
          Ok((s', c))
  }
}
