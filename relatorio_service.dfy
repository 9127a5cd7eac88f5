/**
 * The report service: read-only aggregations over the loan and book tables — the general
 * summary, the most borrowed books and most active members, the outcome of the loans due in
 * a period, the loans falling due soon, and the number of books per category.
 */
module RelatorioService {
  import opened Common
  import opened Enums
  import opened Entity
  import opened EmprestimoRepository
  import opened Persistence
  import Seqs

  /** The sum of the fines present on rows `rs`, left to right (null fines are skipped). */
  function SomaMultas(rs: seq<Registro>): (total: Money)
    ensures (forall i :: 0 <= i < |rs| ==> rs[i].valorMulta.None?) ==> total == 0
    ensures (forall i :: 0 <= i < |rs| && rs[i].valorMulta.Some? ==> rs[i].valorMulta.value >= 0) ==> total >= 0
  {
    if rs == [] then 0
    else
      var ultimo := rs[|rs| - 1];
      SomaMultas(rs[..|rs| - 1]) + (if ultimo.valorMulta.Some? then ultimo.valorMulta.value else 0)
  }

  /** The sum over two blocks of rows is the sum of the two blocks' sums: the order of the rows only groups them. */
  lemma {:induction false} SomaMultasConcat(a: seq<Registro>, b: seq<Registro>)
    ensures SomaMultas(a + b) == SomaMultas(a) + SomaMultas(b)
  {
    if b != [] {
      var init := b[..|b| - 1];
      assert (a + b)[..|a + b| - 1] == a + init;
      assert (a + b)[|a + b| - 1] == b[|b| - 1];
      SomaMultasConcat(a, init);
    } else {
      assert a + b == a;
    }
  }

  /** The positions of the active books with no copy on the shelf. */
  ghost function PosicoesIndisponiveis(ls: seq<Livro>): set<int>
    reads ls`quantidadeDisponivel, ls`ativo
  {
    set i | 0 <= i < |ls| && ls[i].quantidadeDisponivel == 0 && ls[i].ativo
  }

  /** Active books with no copy on the shelf (`findIndisponiveis`), counted. */
  function Indisponiveis(ls: seq<Livro>): (n: nat)
    reads ls`quantidadeDisponivel, ls`ativo
    ensures n == |PosicoesIndisponiveis(ls)|
    ensures n <= |ls|
    ensures n == 0 <==> forall i :: 0 <= i < |ls| ==> !(ls[i].quantidadeDisponivel == 0 && ls[i].ativo)
  {
    if ls == [] then 0
    else
      var ultimo := ls[|ls| - 1];
      IndisponiveisAoFim(ls);
      Indisponiveis(ls[..|ls| - 1]) + (if ultimo.quantidadeDisponivel == 0 && ultimo.ativo then 1 else 0)
  }

  /** The positions of unavailable books split into those before the last book and, maybe, the last one. */
  lemma IndisponiveisAoFim(ls: seq<Livro>)
    requires ls != []
    ensures var ultimo := ls[|ls| - 1];
            |PosicoesIndisponiveis(ls)| ==
              |PosicoesIndisponiveis(ls[..|ls| - 1])| + (if ultimo.quantidadeDisponivel == 0 && ultimo.ativo then 1 else 0)
  {
    var init := ls[..|ls| - 1];
    var ultimo := ls[|ls| - 1];
    var conta := ultimo.quantidadeDisponivel == 0 && ultimo.ativo;
    assert PosicoesIndisponiveis(ls) == PosicoesIndisponiveis(init) + (if conta then {|ls| - 1} else {});
    assert |ls| - 1 !in PosicoesIndisponiveis(init);
  }

  /** The general summary (`gerarRelatorioGeral`). */
  datatype RelatorioGeral = RelatorioGeral(
    totalLivros: nat,
    totalUsuarios: nat,
    totalEmprestimos: nat,
    emprestimosAtivos: nat,
    emprestimosAtrasados: nat,
    multasAcumuladas: Money,
    livrosIndisponiveis: nat,
    dataGeracao: Date)

  /**
   * The general summary on day `hoje`: table sizes, the loans with status `Ativo` (renewed
   * loans are not counted), the loans overdue today and the fines on them, and the active
   * books with no copy on the shelf.
   */
  function GerarRelatorioGeral(db: Biblioteca, hoje: Date): (r: RelatorioGeral)
    reads db, db.livros, db.emprestimos
    ensures r.totalLivros == |db.livros| && r.totalUsuarios == |db.usuarios| && r.totalEmprestimos == |db.emprestimos|
    ensures r.emprestimosAtivos <= r.totalEmprestimos && r.emprestimosAtrasados <= r.totalEmprestimos
    ensures r.livrosIndisponiveis <= r.totalLivros
    ensures var rs := db.Registros();
            && r.emprestimosAtivos == |set i | 0 <= i < |rs| && rs[i].status == Ativo|
            && r.emprestimosAtrasados == |set i | 0 <= i < |rs| && rs[i].IsAtrasado(hoje)|
    ensures r.livrosIndisponiveis == |set i | 0 <= i < |db.livros| && db.livros[i].quantidadeDisponivel == 0 && db.livros[i].ativo|
    ensures r.dataGeracao == hoje
  {
    var rs := db.Registros();
    var atrasados := FindEmprestimosAtrasados(rs, hoje);
    RelatorioGeral(|db.livros|, |db.usuarios|, |rs|, |FindByStatus(rs, Ativo)|, |atrasados|,
                   SomaMultas(atrasados), Indisponiveis(db.livros), hoje)
  }

  /** The row is not `Devolvido`. */
  function NaoDevolvido(e: Registro): bool
  {
    e.status != Devolvido
  }

  /**
   * On a valid database the summary adds up: the three statuses split the loans, every
   * overdue loan is one not yet `Devolvido`, and the accumulated fines are zero because no
   * loan ever carries a fine.
   */
  lemma RelatorioGeralConsistente(db: Biblioteca, hoje: Date)
    requires db.Valid()
    ensures var r := GerarRelatorioGeral(db, hoje);
            var rs := db.Registros();
            && r.emprestimosAtivos + |FindByStatus(rs, Renovado)| + |FindByStatus(rs, Devolvido)| == r.totalEmprestimos
            && r.emprestimosAtrasados + |FindByStatus(rs, Devolvido)| <= r.totalEmprestimos
            && r.multasAcumuladas == 0
  {
    var rs := db.Registros();
    assert db.RegistrosConsistentes();
    Seqs.FilterPartition(rs, ComStatus(Ativo), ComStatus(Renovado), ComStatus(Devolvido));
    Seqs.FilterMonotono(rs, AtrasadoEm(hoje), NaoDevolvido);
    Seqs.FilterComplemento(rs, ComStatus(Devolvido), NaoDevolvido);
    var atrasados := FindEmprestimosAtrasados(rs, hoje);
    Seqs.FilterSub(rs, AtrasadoEm(hoje));
    forall i | 0 <= i < |atrasados| ensures atrasados[i].valorMulta.None? {
      var k :| 0 <= k < |rs| && rs[k] == atrasados[i];
    }
  }

  /** Returned, and not after the due date. */
  predicate DevolvidoNoPrazo(e: Registro)
  {
    e.dataDevolucao.Some? && e.dataDevolucao.value <= e.dataPrevistaDevolucao
  }

  /** Returned after the due date. */
  predicate DevolvidoComAtraso(e: Registro)
  {
    e.dataDevolucao.Some? && e.dataDevolucao.value > e.dataPrevistaDevolucao
  }

  /** What happened to the loans due in a period (`relatorioEmprestimosPorPeriodo`). */
  datatype RelatorioPeriodo = RelatorioPeriodo(
    inicio: Date,
    fim: Date,
    totalEmprestimos: nat,
    devolvidosNoPrazo: nat,
    devolvidosComAtraso: nat,
    aindaEmprestados: nat,
    multasGeradas: Money)

  /** The row is due between `inicio` and `fim` and satisfies `q`. */
  function NoPeriodoE(inicio: Date, fim: Date, q: Registro -> bool): Registro -> bool
  {
    (e: Registro) => inicio <= e.dataPrevistaDevolucao <= fim && q(e)
  }

  /** The loans of the period that satisfy `q` are as many as the table rows due in the period that satisfy `q`. */
  lemma ContagemNoPeriodo(rs: seq<Registro>, inicio: Date, fim: Date, q: Registro -> bool)
    ensures |Seqs.Filter(FindEmprestimosPorPeriodo(rs, inicio, fim), q)| == |Seqs.Posicoes(rs, NoPeriodoE(inicio, fim, q))|
  {
    Seqs.FilterConj(rs, VenceEntre(inicio, fim), q, NoPeriodoE(inicio, fim, q));
    Seqs.FilterCount(rs, NoPeriodoE(inicio, fim, q));
  }

  /** Each class of the period's loans is as large as the set of table rows due in the period that fall in it. */
  lemma ClassesDoPeriodo(rs: seq<Registro>, inicio: Date, fim: Date)
    ensures var es := FindEmprestimosPorPeriodo(rs, inicio, fim);
            && |Seqs.Filter(es, DevolvidoNoPrazo)| ==
                 |set i | 0 <= i < |rs| && inicio <= rs[i].dataPrevistaDevolucao <= fim && DevolvidoNoPrazo(rs[i])|
            && |Seqs.Filter(es, DevolvidoComAtraso)| ==
                 |set i | 0 <= i < |rs| && inicio <= rs[i].dataPrevistaDevolucao <= fim && DevolvidoComAtraso(rs[i])|
            && |Seqs.Filter(es, EmAberto)| ==
                 |set i | 0 <= i < |rs| && inicio <= rs[i].dataPrevistaDevolucao <= fim && EmAberto(rs[i])|
  {
    ContagemNoPeriodo(rs, inicio, fim, DevolvidoNoPrazo);
    ContagemNoPeriodo(rs, inicio, fim, DevolvidoComAtraso);
    ContagemNoPeriodo(rs, inicio, fim, EmAberto);
    assert Seqs.Posicoes(rs, NoPeriodoE(inicio, fim, DevolvidoNoPrazo)) ==
           set i | 0 <= i < |rs| && inicio <= rs[i].dataPrevistaDevolucao <= fim && DevolvidoNoPrazo(rs[i]);
    assert Seqs.Posicoes(rs, NoPeriodoE(inicio, fim, DevolvidoComAtraso)) ==
           set i | 0 <= i < |rs| && inicio <= rs[i].dataPrevistaDevolucao <= fim && DevolvidoComAtraso(rs[i]);
    assert Seqs.Posicoes(rs, NoPeriodoE(inicio, fim, EmAberto)) ==
           set i | 0 <= i < |rs| && inicio <= rs[i].dataPrevistaDevolucao <= fim && EmAberto(rs[i]);
  }

  /**
   * The loans due between `inicio` and `fim`, split into returned on time, returned late and
   * still out: each count is the number of table rows due in the period that fall in its
   * class, and as each loan falls in exactly one class the three add up to the total.
   */
  function PorPeriodo(rs: seq<Registro>, inicio: Date, fim: Date): (r: RelatorioPeriodo)
    ensures r.totalEmprestimos == |FindEmprestimosPorPeriodo(rs, inicio, fim)|
    ensures r.totalEmprestimos == |set i | 0 <= i < |rs| && inicio <= rs[i].dataPrevistaDevolucao <= fim|
    ensures r.devolvidosNoPrazo ==
              |set i | 0 <= i < |rs| && inicio <= rs[i].dataPrevistaDevolucao <= fim && DevolvidoNoPrazo(rs[i])|
    ensures r.devolvidosComAtraso ==
              |set i | 0 <= i < |rs| && inicio <= rs[i].dataPrevistaDevolucao <= fim && DevolvidoComAtraso(rs[i])|
    ensures r.aindaEmprestados ==
              |set i | 0 <= i < |rs| && inicio <= rs[i].dataPrevistaDevolucao <= fim && EmAberto(rs[i])|
    ensures r.devolvidosNoPrazo + r.devolvidosComAtraso + r.aindaEmprestados == r.totalEmprestimos
  {
    var es := FindEmprestimosPorPeriodo(rs, inicio, fim);
    Seqs.FilterPartition(es, DevolvidoNoPrazo, DevolvidoComAtraso, EmAberto);
    ClassesDoPeriodo(rs, inicio, fim);
    RelatorioPeriodo(inicio, fim, |es|, |Seqs.Filter(es, DevolvidoNoPrazo)|, |Seqs.Filter(es, DevolvidoComAtraso)|,
                     |Seqs.Filter(es, EmAberto)|, SomaMultas(es))
  }

  /** On a valid database the fines of any period add up to zero: no loan carries a fine. */
  lemma MultasDoPeriodoNulas(db: Biblioteca, inicio: Date, fim: Date)
    requires db.Valid()
    ensures PorPeriodo(db.Registros(), inicio, fim).multasGeradas == 0
  {
    var rs := db.Registros();
    var es := FindEmprestimosPorPeriodo(rs, inicio, fim);
    assert db.RegistrosConsistentes();
    Seqs.FilterSub(rs, VenceEntre(inicio, fim));
    forall i | 0 <= i < |es| ensures es[i].valorMulta.None? {
      var k :| 0 <= k < |rs| && rs[k] == es[i];
    }
  }

  /**
   * The loans not yet returned whose due date is between today and `dias` days from today
   * (`relatorioEmprestimosProximosDoVencimento`): exactly those rows, none other.
   */
  function ProximosDoVencimento(rs: seq<Registro>, hoje: Date, dias: int): (r: seq<Registro>)
    ensures multiset(r) <= multiset(rs)
    ensures forall i :: 0 <= i < |r| ==> EmAberto(r[i]) && hoje <= r[i].dataPrevistaDevolucao <= hoje + dias
    ensures forall i :: 0 <= i < |rs| && EmAberto(rs[i]) && hoje <= rs[i].dataPrevistaDevolucao <= hoje + dias ==> rs[i] in r
    ensures forall x {:trigger multiset(r)[x]} :: x in r + rs ==>
              multiset(r)[x] == if EmAberto(x) && hoje <= x.dataPrevistaDevolucao <= hoje + dias then multiset(rs)[x] else 0
  {
    var periodo := FindEmprestimosPorPeriodo(rs, hoje, hoje + dias);
    Seqs.FilterMultiset(periodo, EmAberto);
    Seqs.FilterSub(rs, VenceEntre(hoje, hoje + dias));
    Seqs.FilterSub(periodo, EmAberto);
    Seqs.FilterProps(periodo, EmAberto);
    var r := Seqs.Filter(periodo, EmAberto);
    assert forall i :: 0 <= i < |rs| && EmAberto(rs[i]) && hoje <= rs[i].dataPrevistaDevolucao <= hoje + dias ==>
             rs[i] in periodo;
    r
  }

  /** A ranking entry's count. */
  function Contagem<K>(e: (K, nat)): int
  {
    e.1
  }

  /** Every key of `chaves` with its number of occurrences, most frequent first. */
  function Ordenado<K(==)>(chaves: seq<K>): seq<(K, nat)>
  {
    Seqs.SortDesc(Seqs.Tally(chaves), Contagem)
  }

  /** The ordered tally lists every key once, with its number of occurrences, by non-increasing count. */
  lemma OrdenadoProps<K>(chaves: seq<K>)
    ensures var o := Ordenado(chaves);
            && (forall i :: 0 <= i < |o| ==> o[i].1 == multiset(chaves)[o[i].0] > 0)
            && Seqs.NonIncreasing(o, Contagem)
            && Seqs.SemRepeticao(o)
            && (forall p :: 0 <= p < |chaves| ==> chaves[p] in Seqs.Keys(o))
  {
    var t := Seqs.Tally(chaves);
    var o := Ordenado(chaves);
    forall i | 0 <= i < |o| ensures o[i].1 == multiset(chaves)[o[i].0] > 0 {
      assert o[i] in multiset(t);
      var k :| 0 <= k < |t| && t[k] == o[i];
    }
    assert Seqs.SemRepeticao(t) by {
      forall i, j | 0 <= i < j < |t| ensures t[i] != t[j] {
        assert t[i].0 != t[j].0;
      }
    }
    Seqs.SubSemRepeticao(o, t);
    forall p | 0 <= p < |chaves| ensures chaves[p] in Seqs.Keys(o) {
      var k :| 0 <= k < |Seqs.Keys(t)| && Seqs.Keys(t)[k] == chaves[p];
      assert t[k] in multiset(o);
      var i :| 0 <= i < |o| && o[i] == t[k];
      assert Seqs.Keys(o)[i] == chaves[p];
    }
  }

  /**
   * `r` is a ranking of the keys counted by `m`: each entry carries its key's count, which is
   * positive, the counts never increase along the list, and no key is listed twice.
   */
  ghost predicate Classificacao<K>(r: seq<(K, nat)>, m: multiset<K>)
  {
    && (forall i :: 0 <= i < |r| ==> r[i].1 == m[r[i].0] > 0)
    && Seqs.NonIncreasing(r, Contagem)
    && (forall i, j :: 0 <= i < j < |r| ==> r[i].0 != r[j].0)
  }

  /** The first `limite` entries of the ordered tally (`sorted(comparingByValue().reversed()).limit(limite)`). */
  function Ranking<K(==)>(chaves: seq<K>, limite: nat): (r: seq<(K, nat)>)
    ensures |r| <= limite
    ensures Classificacao(r, multiset(chaves))
  {
    OrdenadoProps(chaves);
    var o := Ordenado(chaves);
    var r := Seqs.Take(o, limite);
    assert forall i :: 0 <= i < |r| ==> r[i] == o[i];
    r
  }

  /**
   * The ranking is a top list: a key left out of it occurs no more often than any key in it,
   * and a key is left out only when the list is full.
   */
  lemma RankingTopo<K>(chaves: seq<K>, limite: nat, p: int)
    requires 0 <= p < |chaves| && chaves[p] !in Seqs.Keys(Ranking(chaves, limite))
    ensures |Ranking(chaves, limite)| == limite
    ensures forall i :: 0 <= i < limite ==> multiset(chaves)[chaves[p]] <= Ranking(chaves, limite)[i].1
  {
    OrdenadoProps(chaves);
    var o := Ordenado(chaves);
    var r := Ranking(chaves, limite);
    assert forall i :: 0 <= i < |r| ==> r[i] == o[i];
    var q :| 0 <= q < |Seqs.Keys(o)| && Seqs.Keys(o)[q] == chaves[p];
    assert q >= |r|;
    assert Contagem(o[q]) == multiset(chaves)[chaves[p]];
    forall i | 0 <= i < limite ensures multiset(chaves)[chaves[p]] <= r[i].1 {
      assert Contagem(o[i]) >= Contagem(o[q]);
    }
  }

  /** The entry's key is still stored. */
  function Existe<K(==)>(existentes: seq<K>): ((K, nat)) -> bool
  {
    (e: (K, nat)) => e.0 in existentes
  }

  /** Dropping entries from a ranking, in order, leaves a ranking of the same counts. */
  lemma FiltroClassifica<K>(r: seq<(K, nat)>, m: multiset<K>, p: ((K, nat)) -> bool)
    requires Classificacao(r, m)
    ensures Classificacao(Seqs.Filter(r, p), m)
  {
    var f := Seqs.Filter(r, p);
    Seqs.FilterSub(r, p);
    Seqs.FilterNonIncreasing(r, p, Contagem);
    forall i | 0 <= i < |f| ensures f[i].1 == m[f[i].0] > 0 {
      var k :| 0 <= k < |r| && r[k] == f[i];
    }
    assert Seqs.SemRepeticao(r) by {
      forall i, j | 0 <= i < j < |r| ensures r[i] != r[j] {
        assert r[i].0 != r[j].0;
      }
    }
    Seqs.SubSemRepeticao(f, r);
    forall i, j | 0 <= i < j < |f| ensures f[i].0 != f[j].0 {
      assert f[i] != f[j];
    }
  }

  /** Dropping the entries whose key is no longer stored keeps the ranking's shape. */
  lemma FiltradoProps<K>(chaves: seq<K>, existentes: seq<K>, limite: nat)
    ensures var f := Seqs.Filter(Ranking(chaves, limite), Existe(existentes));
            && |f| <= limite
            && (forall i :: 0 <= i < |f| ==> f[i].0 in existentes)
            && Classificacao(f, multiset(chaves))
  {
    var rk := Ranking(chaves, limite);
    Seqs.FilterProps(rk, Existe(existentes));
    FiltroClassifica(rk, multiset(chaves), Existe(existentes));
  }

  /** The books of rows `rs`, one per loan. */
  function LivrosDe(rs: seq<Registro>): (r: seq<Livro>)
    ensures |r| == |rs| && forall i :: 0 <= i < |rs| ==> r[i] == rs[i].livro
  {
    seq(|rs|, i requires 0 <= i < |rs| => rs[i].livro)
  }

  /** The members of rows `rs`, one per loan. */
  function UsuariosDe(rs: seq<Registro>): (r: seq<Usuario>)
    ensures |r| == |rs| && forall i :: 0 <= i < |rs| ==> r[i] == rs[i].usuario
  {
    seq(|rs|, i requires 0 <= i < |rs| => rs[i].usuario)
  }

  /**
   * The `limite` most borrowed books (`relatorioLivrosMaisEmprestados`), each with its number of
   * loans, by non-increasing count; books no longer stored are dropped. A negative limit is refused.
   */
  function MaisEmprestados(db: Biblioteca, limite: int): (r: Result<seq<(Livro, nat)>>)
    reads db, db.emprestimos
    ensures r.Err? <==> limite < 0
    ensures r.Err? ==> r.error == IllegalArgument
    ensures r.Ok? ==> |r.value| <= limite
    ensures r.Ok? ==> forall i :: 0 <= i < |r.value| ==>
              r.value[i].0 in db.livros && r.value[i].1 == multiset(LivrosDe(db.Registros()))[r.value[i].0] > 0
    ensures r.Ok? ==> Seqs.NonIncreasing(r.value, Contagem)
    ensures r.Ok? ==> forall i, j :: 0 <= i < j < |r.value| ==> r.value[i].0 != r.value[j].0
  {
    if limite < 0 then Err(IllegalArgument)
    else
      var chaves := LivrosDe(db.Registros());
      FiltradoProps(chaves, db.livros, limite);
      Ok(Seqs.Filter(Ranking(chaves, limite), Existe(db.livros)))
  }

  /**
   * The `limite` members with the most loans (`relatorioUsuariosMaisAtivos`), each with its number
   * of loans, by non-increasing count; members no longer stored are dropped. A negative limit is refused.
   */
  function UsuariosMaisAtivos(db: Biblioteca, limite: int): (r: Result<seq<(Usuario, nat)>>)
    reads db, db.emprestimos
    ensures r.Err? <==> limite < 0
    ensures r.Err? ==> r.error == IllegalArgument
    ensures r.Ok? ==> |r.value| <= limite
    ensures r.Ok? ==> forall i :: 0 <= i < |r.value| ==>
              r.value[i].0 in db.usuarios && r.value[i].1 == multiset(UsuariosDe(db.Registros()))[r.value[i].0] > 0
    ensures r.Ok? ==> Seqs.NonIncreasing(r.value, Contagem)
    ensures r.Ok? ==> forall i, j :: 0 <= i < j < |r.value| ==> r.value[i].0 != r.value[j].0
  {
    if limite < 0 then Err(IllegalArgument)
    else
      var chaves := UsuariosDe(db.Registros());
      FiltradoProps(chaves, db.usuarios, limite);
      Ok(Seqs.Filter(Ranking(chaves, limite), Existe(db.usuarios)))
  }

  /** Every key counted in the ranking occurs in `chaves`. */
  lemma ChaveDoRanking<K>(chaves: seq<K>, limite: nat, i: int)
    requires 0 <= i < |Ranking(chaves, limite)|
    ensures Ranking(chaves, limite)[i].0 in chaves
  {
    assert Ranking(chaves, limite)[i].0 in multiset(chaves);
  }

  /** When every counted key is still stored, dropping the keys no longer stored drops nothing. */
  lemma NadaDescartado<K>(chaves: seq<K>, existentes: seq<K>, limite: nat)
    requires forall k :: 0 <= k < |chaves| ==> chaves[k] in existentes
    ensures Seqs.Filter(Ranking(chaves, limite), Existe(existentes)) == Ranking(chaves, limite)
  {
    var r := Ranking(chaves, limite);
    forall i | 0 <= i < |r| ensures Existe(existentes)(r[i]) {
      ChaveDoRanking(chaves, limite, i);
    }
    Seqs.FilterTodos(r, Existe(existentes));
  }

  /**
   * On a valid database every loan's book and member are stored, so the two rankings drop
   * nothing: they are exactly the top of the ordered tallies.
   */
  lemma RankingsSemDescarte(db: Biblioteca, limite: nat)
    requires db.Valid()
    ensures MaisEmprestados(db, limite) == Ok(Ranking(LivrosDe(db.Registros()), limite))
    ensures UsuariosMaisAtivos(db, limite) == Ok(Ranking(UsuariosDe(db.Registros()), limite))
  {
    var rs := db.Registros();
    assert db.Referencias();
    NadaDescartado(LivrosDe(rs), db.livros, limite);
    NadaDescartado(UsuariosDe(rs), db.usuarios, limite);
  }

  /** The positions of the books whose category is named `nome`. */
  ghost function IndicesDaCategoria(ls: seq<Livro>, categorias: map<int, string>, nome: string): set<int>
    reads ls`categoria
  {
    set i | 0 <= i < |ls| && ls[i].categoria.Some? && ls[i].categoria.value in categorias
                          && categorias[ls[i].categoria.value] == nome
  }

  /** The number of books per category name, books without a category left out (`relatorioLivrosPorCategoria`). */
  function LivrosPorCategoria(ls: seq<Livro>, categorias: map<int, string>): (r: map<string, nat>)
    reads ls`categoria
    requires forall i :: 0 <= i < |ls| && ls[i].categoria.Some? ==> ls[i].categoria.value in categorias
    ensures forall nome :: nome in r ==> r[nome] > 0
  {
    if ls == [] then map[]
    else
      var m := LivrosPorCategoria(ls[..|ls| - 1], categorias);
      var c := ls[|ls| - 1].categoria;
      if c.None? then m
      else
        var nome := categorias[c.value];
        m[nome := (if nome in m then m[nome] else 0) + 1]
  }

  /** The positions of a category's books split into those before the last book and, maybe, the last one. */
  lemma IndicesAoFim(ls: seq<Livro>, categorias: map<int, string>, nome: string)
    requires ls != []
    requires forall i :: 0 <= i < |ls| && ls[i].categoria.Some? ==> ls[i].categoria.value in categorias
    ensures var c := ls[|ls| - 1].categoria;
            |IndicesDaCategoria(ls, categorias, nome)| ==
              |IndicesDaCategoria(ls[..|ls| - 1], categorias, nome)| + (if c.Some? && categorias[c.value] == nome then 1 else 0)
  {
    var n := |ls|;
    var init := ls[..n - 1];
    var antes := IndicesDaCategoria(init, categorias, nome);
    var c := ls[n - 1].categoria;
    var conta := c.Some? && categorias[c.value] == nome;
    var todos := IndicesDaCategoria(ls, categorias, nome);
    var partes := antes + (if conta then {n - 1} else {});
    forall i | i in todos ensures i in partes {
      if i < n - 1 { assert init[i] == ls[i]; }
    }
    forall i | i in partes ensures i in todos {
      if i < n - 1 { assert init[i] == ls[i]; }
    }
    assert todos == partes;
    assert n - 1 !in antes;
  }

  /** Each category name maps to the number of books in that category, and names with no book are absent. */
  lemma {:induction false} ContagemPorCategoria(ls: seq<Livro>, categorias: map<int, string>, nome: string)
    requires forall i :: 0 <= i < |ls| && ls[i].categoria.Some? ==> ls[i].categoria.value in categorias
    ensures nome in LivrosPorCategoria(ls, categorias) ==>
              LivrosPorCategoria(ls, categorias)[nome] == |IndicesDaCategoria(ls, categorias, nome)|
    ensures nome !in LivrosPorCategoria(ls, categorias) ==> IndicesDaCategoria(ls, categorias, nome) == {}
  {
    if ls != [] {
      var n := |ls|;
      var init := ls[..n - 1];
      ContagemPorCategoria(init, categorias, nome);
      IndicesAoFim(ls, categorias, nome);
    }
  }
}
