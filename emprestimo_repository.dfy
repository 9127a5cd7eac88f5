/**
 * The loan repository's derived queries, as filters (and one ordering) over the loan table.
 * `rs` is the table in id order; a member or a book is identified by its entity object.
 */
module EmprestimoRepository {
  import opened Common
  import opened Enums
  import opened Entity
  import Seqs

  /** The row belongs to member `u`. */
  function DoUsuario(u: Usuario): Registro -> bool
  {
    (e: Registro) => e.usuario == u
  }

  /** The row belongs to member `u` and is not returned. */
  function AbertoDoUsuario(u: Usuario): Registro -> bool
  {
    (e: Registro) => e.usuario == u && EmAberto(e)
  }

  /** The row is overdue on day `data`. */
  function AtrasadoEm(data: Date): Registro -> bool
  {
    (e: Registro) => e.IsAtrasado(data)
  }

  /** Every loan of member `u`, in id order: the member's inverse loan list. */
  function EmprestimosDoUsuario(rs: seq<Registro>, u: Usuario): (r: seq<Registro>)
    ensures forall i :: 0 <= i < |r| ==> r[i].usuario == u
    ensures forall i :: 0 <= i < |rs| && rs[i].usuario == u ==> rs[i] in r
    ensures forall x {:trigger multiset(r)[x]} :: x in r + rs ==> multiset(r)[x] == if x.usuario == u then multiset(rs)[x] else 0
  {
    Seqs.FilterMultiset(rs, DoUsuario(u));
    Seqs.FilterProps(rs, DoUsuario(u));
    Seqs.Filter(rs, DoUsuario(u))
  }

  /** The row has status `status`. */
  function ComStatus(status: StatusEmprestimo): Registro -> bool
  {
    (e: Registro) => e.status == status
  }

  /** Filtering keeps as many rows as there are positions of `rs` whose row has status `status`. */
  lemma ContagemComStatus(rs: seq<Registro>, status: StatusEmprestimo)
    ensures |Seqs.Filter(rs, ComStatus(status))| == |set i | 0 <= i < |rs| && rs[i].status == status|
  {
    Seqs.FilterCount(rs, ComStatus(status));
    assert Seqs.Posicoes(rs, ComStatus(status)) == (set i | 0 <= i < |rs| && rs[i].status == status);
  }

  /** `findByStatus`. */
  function FindByStatus(rs: seq<Registro>, status: StatusEmprestimo): (r: seq<Registro>)
    ensures forall i :: 0 <= i < |r| ==> r[i].status == status
    ensures forall i :: 0 <= i < |rs| && rs[i].status == status ==> rs[i] in r
    ensures forall x {:trigger multiset(r)[x]} :: x in r + rs ==> multiset(r)[x] == if x.status == status then multiset(rs)[x] else 0
    ensures |r| == |set i | 0 <= i < |rs| && rs[i].status == status|
  {
    Seqs.FilterMultiset(rs, ComStatus(status));
    ContagemComStatus(rs, status);
    Seqs.FilterProps(rs, ComStatus(status));
    Seqs.Filter(rs, ComStatus(status))
  }

  /** `findByUsuarioIdAndStatus`. */
  function FindByUsuarioIdAndStatus(rs: seq<Registro>, u: Usuario, status: StatusEmprestimo): (r: seq<Registro>)
    ensures forall i :: 0 <= i < |r| ==> r[i].usuario == u && r[i].status == status
    ensures forall i :: 0 <= i < |rs| && rs[i].usuario == u && rs[i].status == status ==> rs[i] in r
    ensures forall x {:trigger multiset(r)[x]} :: x in r + rs ==> multiset(r)[x] == if x.usuario == u && x.status == status then multiset(rs)[x] else 0
  {
    var p := (e: Registro) => e.usuario == u && e.status == status;
    Seqs.FilterMultiset(rs, p);
    Seqs.FilterProps(rs, p);
    Seqs.Filter(rs, p)
  }

  /** `findByLivroIdAndStatus`. */
  function FindByLivroIdAndStatus(rs: seq<Registro>, l: Livro, status: StatusEmprestimo): (r: seq<Registro>)
    ensures forall i :: 0 <= i < |r| ==> r[i].livro == l && r[i].status == status
    ensures forall i :: 0 <= i < |rs| && rs[i].livro == l && rs[i].status == status ==> rs[i] in r
    ensures forall x {:trigger multiset(r)[x]} :: x in r + rs ==> multiset(r)[x] == if x.livro == l && x.status == status then multiset(rs)[x] else 0
  {
    var p := (e: Registro) => e.livro == l && e.status == status;
    Seqs.FilterMultiset(rs, p);
    Seqs.FilterProps(rs, p);
    Seqs.Filter(rs, p)
  }

  /** `findEmprestimosAtivosDoUsuario`: the member's loans with no return date. */
  function FindEmprestimosAtivosDoUsuario(rs: seq<Registro>, u: Usuario): (r: seq<Registro>)
    ensures forall i :: 0 <= i < |r| ==> r[i].usuario == u && EmAberto(r[i])
    ensures forall i :: 0 <= i < |rs| && rs[i].usuario == u && EmAberto(rs[i]) ==> rs[i] in r
    ensures forall x {:trigger multiset(r)[x]} :: x in r + rs ==> multiset(r)[x] == if x.usuario == u && EmAberto(x) then multiset(rs)[x] else 0
  {
    Seqs.FilterMultiset(rs, AbertoDoUsuario(u));
    Seqs.FilterProps(rs, AbertoDoUsuario(u));
    Seqs.Filter(rs, AbertoDoUsuario(u))
  }

  /** `countEmprestimosAtivosByUsuarioId`: the same number the member entity computes from its own loan list. */
  function CountEmprestimosAtivosByUsuarioId(rs: seq<Registro>, u: Usuario): (n: nat)
    ensures n == u.EmprestimosAtivos(EmprestimosDoUsuario(rs, u))
    ensures n <= |EmprestimosDoUsuario(rs, u)|
  {
    Seqs.FilterConj(rs, DoUsuario(u), EmAberto, AbertoDoUsuario(u));
    |FindEmprestimosAtivosDoUsuario(rs, u)|
  }

  /** Filtering keeps as many rows as there are positions of `rs` whose row is overdue on day `data`. */
  lemma ContagemAtrasados(rs: seq<Registro>, data: Date)
    ensures |Seqs.Filter(rs, AtrasadoEm(data))| == |set i | 0 <= i < |rs| && rs[i].IsAtrasado(data)|
  {
    Seqs.FilterCount(rs, AtrasadoEm(data));
    assert Seqs.Posicoes(rs, AtrasadoEm(data)) == (set i | 0 <= i < |rs| && rs[i].IsAtrasado(data));
  }

  /** `findEmprestimosAtrasados(data)`: not returned and due before `data`, i.e. overdue on day `data`. */
  function FindEmprestimosAtrasados(rs: seq<Registro>, data: Date): (r: seq<Registro>)
    ensures forall i :: 0 <= i < |r| ==> EmAberto(r[i]) && r[i].dataPrevistaDevolucao < data
    ensures forall i :: 0 <= i < |rs| && rs[i].IsAtrasado(data) ==> rs[i] in r
    ensures forall i :: 0 <= i < |r| ==> r[i].IsAtrasado(data)
    ensures forall x {:trigger multiset(r)[x]} :: x in r + rs ==> multiset(r)[x] == if x.IsAtrasado(data) then multiset(rs)[x] else 0
    ensures |r| == |set i | 0 <= i < |rs| && rs[i].IsAtrasado(data)|
  {
    Seqs.FilterMultiset(rs, AtrasadoEm(data));
    ContagemAtrasados(rs, data);
    Seqs.FilterProps(rs, AtrasadoEm(data));
    Seqs.Filter(rs, AtrasadoEm(data))
  }

  /** The row's due date lies between `a` and `b`, both included. */
  function VenceEntre(a: Date, b: Date): Registro -> bool
  {
    (e: Registro) => a <= e.dataPrevistaDevolucao <= b
  }

  /** Filtering keeps as many rows as there are positions of `rs` whose row falls due between `a` and `b`. */
  lemma ContagemVenceEntre(rs: seq<Registro>, a: Date, b: Date)
    ensures |Seqs.Filter(rs, VenceEntre(a, b))| == |set i | 0 <= i < |rs| && a <= rs[i].dataPrevistaDevolucao <= b|
  {
    Seqs.FilterCount(rs, VenceEntre(a, b));
    assert Seqs.Posicoes(rs, VenceEntre(a, b)) == (set i | 0 <= i < |rs| && a <= rs[i].dataPrevistaDevolucao <= b);
  }

  /** `findEmprestimosPorPeriodo(a, b)`: due date between `a` and `b`, both included. */
  function FindEmprestimosPorPeriodo(rs: seq<Registro>, a: Date, b: Date): (r: seq<Registro>)
    ensures forall i :: 0 <= i < |r| ==> a <= r[i].dataPrevistaDevolucao <= b
    ensures forall i :: 0 <= i < |rs| && a <= rs[i].dataPrevistaDevolucao <= b ==> rs[i] in r
    ensures forall x {:trigger multiset(r)[x]} :: x in r + rs ==> multiset(r)[x] == if a <= x.dataPrevistaDevolucao <= b then multiset(rs)[x] else 0
    ensures |r| == |set i | 0 <= i < |rs| && a <= rs[i].dataPrevistaDevolucao <= b|
  {
    Seqs.FilterMultiset(rs, VenceEntre(a, b));
    ContagemVenceEntre(rs, a, b);
    Seqs.FilterProps(rs, VenceEntre(a, b));
    Seqs.Filter(rs, VenceEntre(a, b))
  }

  /** The loan date, the ordering key of a member's history. */
  function DataEmprestimo(e: Registro): int
  {
    e.dataEmprestimo
  }

  /** `findByUsuarioIdOrderByDataEmprestimoDesc`: all of the member's loans, newest first. */
  function FindByUsuarioIdOrderByDataEmprestimoDesc(rs: seq<Registro>, u: Usuario): (r: seq<Registro>)
    ensures multiset(r) == multiset(EmprestimosDoUsuario(rs, u))
    ensures forall i, j :: 0 <= i < j < |r| ==> r[i].dataEmprestimo >= r[j].dataEmprestimo
  {
    var h := Seqs.SortDesc(EmprestimosDoUsuario(rs, u), DataEmprestimo);
    assert forall i, j :: 0 <= i < j < |h| ==> DataEmprestimo(h[i]) >= DataEmprestimo(h[j]);
    h
  }

  /** `existsByUsuarioIdAndLivroIdAndDataDevolucaoIsNull`. */
  function ExistsByUsuarioIdAndLivroIdAndDataDevolucaoIsNull(rs: seq<Registro>, u: Usuario, l: Livro): (b: bool)
    ensures b <==> exists i :: 0 <= i < |rs| && rs[i].usuario == u && rs[i].livro == l && EmAberto(rs[i])
  {
    if rs == [] then false
    else if rs[0].usuario == u && rs[0].livro == l && EmAberto(rs[0]) then true
    else
      var b := ExistsByUsuarioIdAndLivroIdAndDataDevolucaoIsNull(rs[1..], u, l);
      assert forall i :: 1 <= i < |rs| ==> rs[i] == rs[1..][i - 1];
      b
  }

  /** The member's history ordered newest first lists exactly the member's loans: none lost, none added. */
  lemma {:induction false} HistoricoCompleto(rs: seq<Registro>, u: Usuario)
    ensures forall i :: 0 <= i < |rs| && rs[i].usuario == u ==> rs[i] in FindByUsuarioIdOrderByDataEmprestimoDesc(rs, u)
    ensures forall e :: e in FindByUsuarioIdOrderByDataEmprestimoDesc(rs, u) ==> e in rs && e.usuario == u
  {
    var h := FindByUsuarioIdOrderByDataEmprestimoDesc(rs, u);
    var d := EmprestimosDoUsuario(rs, u);
    Seqs.FilterSub(rs, DoUsuario(u));
    forall i | 0 <= i < |rs| && rs[i].usuario == u ensures rs[i] in h {
      assert rs[i] in multiset(d);
    }
    forall e | e in h ensures e in rs && e.usuario == u {
      assert e in multiset(d);
      var k :| 0 <= k < |d| && d[k] == e;
    }
  }
}
