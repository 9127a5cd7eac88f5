/**
 * The loan service: checkout (`Criar`), return (`Devolver`) and renewal (`Renovar`), each one
 * transaction over the database. A failed call leaves the database as it was (rollback).
 */
module EmprestimoService {
  import opened Common
  import opened Enums
  import opened Entity
  import opened Requests
  import opened EmprestimoRepository
  import opened Persistence
  import Seqs

  /** Member `u` still holds an unreturned copy of book `l`. */
  ghost predicate JaPossui(rs: seq<Registro>, u: Usuario, l: Livro)
  {
    exists i :: 0 <= i < |rs| && rs[i].usuario == u && rs[i].livro == l && EmAberto(rs[i])
  }

  /** Member `u` has a loan that is overdue on day `hoje`. */
  ghost predicate TemAtraso(rs: seq<Registro>, u: Usuario, hoje: Date)
  {
    exists i :: 0 <= i < |rs| && rs[i].usuario == u && rs[i].IsAtrasado(hoje)
  }

  /** The overdue loans among member `u`'s open loans, as the checkout rules count them. */
  function AtrasadosDoUsuario(rs: seq<Registro>, u: Usuario, hoje: Date): seq<Registro>
  {
    Seqs.Filter(FindEmprestimosAtivosDoUsuario(rs, u), AtrasadoEm(hoje))
  }

  /** An overdue loan of the member is among those counted. */
  lemma AtrasoContado(rs: seq<Registro>, u: Usuario, hoje: Date)
    requires TemAtraso(rs, u, hoje)
    ensures |AtrasadosDoUsuario(rs, u, hoje)| > 0
  {
    var ativos := FindEmprestimosAtivosDoUsuario(rs, u);
    var i :| 0 <= i < |rs| && rs[i].usuario == u && rs[i].IsAtrasado(hoje);
    assert rs[i] in ativos;
    var k :| 0 <= k < |ativos| && ativos[k] == rs[i];
    Seqs.FilterProps(ativos, AtrasadoEm(hoje));
    assert ativos[k] in AtrasadosDoUsuario(rs, u, hoje);
  }

  /** Every loan counted is an overdue loan of the member. */
  lemma ContadoEmAtraso(rs: seq<Registro>, u: Usuario, hoje: Date)
    requires |AtrasadosDoUsuario(rs, u, hoje)| > 0
    ensures TemAtraso(rs, u, hoje)
  {
    var ativos := FindEmprestimosAtivosDoUsuario(rs, u);
    var atrasados := AtrasadosDoUsuario(rs, u, hoje);
    Seqs.FilterProps(ativos, AtrasadoEm(hoje));
    Seqs.FilterSub(ativos, AtrasadoEm(hoje));
    assert atrasados[0] in multiset(ativos);
    var k :| 0 <= k < |ativos| && ativos[k] == atrasados[0];
    Seqs.FilterSub(rs, AbertoDoUsuario(u));
    assert ativos[k] in multiset(rs);
    var i :| 0 <= i < |rs| && rs[i] == ativos[k];
    assert rs[i].usuario == u && rs[i].IsAtrasado(hoje);
  }

  /** Counting the overdue loans among a member's open loans finds one exactly when the member has an overdue loan. */
  lemma ContagemDeAtrasos(rs: seq<Registro>, u: Usuario, hoje: Date)
    ensures |AtrasadosDoUsuario(rs, u, hoje)| > 0 <==> TemAtraso(rs, u, hoje)
  {
    if TemAtraso(rs, u, hoje) {
      AtrasoContado(rs, u, hoje);
    }
    if |AtrasadosDoUsuario(rs, u, hoje)| > 0 {
      ContadoEmAtraso(rs, u, hoje);
    }
  }

  /**
   * The checkout rules, checked in order; the first one broken is reported:
   * book inactive, no copy available, member inactive, member at the loan limit,
   * member already holding this book, member with an overdue loan.
   */
  function ValidarEmprestimo(livro: Livro, usuario: Usuario, rs: seq<Registro>, hoje: Date): Outcome
    reads livro, usuario
  {
    if !livro.ativo then Fail(Business(BookInactive))
    else if livro.quantidadeDisponivel <= 0 then Fail(Business(NoCopiesAvailable))
    else if !usuario.ativo then Fail(Business(UserInactive))
    else if !usuario.PodeEmprestar(EmprestimosDoUsuario(rs, usuario)) then Fail(Business(LoanLimitReached))
    else if ExistsByUsuarioIdAndLivroIdAndDataDevolucaoIsNull(rs, usuario, livro) then Fail(Business(BookAlreadyHeld))
    else if |AtrasadosDoUsuario(rs, usuario, hoje)| > 0 then
      Fail(Business(UserHasOverdueLoans))
    else Pass
  }

  /** The checkout rules pass exactly when none of them is broken. */
  lemma ValidarEmprestimoPassa(livro: Livro, usuario: Usuario, rs: seq<Registro>, hoje: Date)
    ensures ValidarEmprestimo(livro, usuario, rs, hoje) == Pass <==>
              && livro.ativo && livro.quantidadeDisponivel > 0 && usuario.ativo
              && usuario.EmprestimosAtivos(EmprestimosDoUsuario(rs, usuario)) < usuario.limiteEmprestimos
              && !JaPossui(rs, usuario, livro) && !TemAtraso(rs, usuario, hoje)
  {
    ContagemDeAtrasos(rs, usuario, hoje);
  }

  /** Each refusal names the first rule broken, in the order the rules are checked. */
  lemma RegraVioladaPrimeiro(livro: Livro, usuario: Usuario, rs: seq<Registro>, hoje: Date)
    ensures var r := ValidarEmprestimo(livro, usuario, rs, hoje);
      && (r == Fail(Business(BookInactive)) <==> !livro.ativo)
      && (r == Fail(Business(NoCopiesAvailable)) <==> livro.ativo && livro.quantidadeDisponivel <= 0)
      && (r == Fail(Business(UserInactive)) <==> livro.ativo && livro.quantidadeDisponivel > 0 && !usuario.ativo)
      && (r == Fail(Business(LoanLimitReached)) <==>
            livro.ativo && livro.quantidadeDisponivel > 0 && usuario.ativo
            && usuario.EmprestimosAtivos(EmprestimosDoUsuario(rs, usuario)) >= usuario.limiteEmprestimos)
      && (r == Fail(Business(BookAlreadyHeld)) <==>
            livro.ativo && livro.quantidadeDisponivel > 0 && usuario.PodeEmprestar(EmprestimosDoUsuario(rs, usuario))
            && JaPossui(rs, usuario, livro))
      && (r == Fail(Business(UserHasOverdueLoans)) <==>
            livro.ativo && livro.quantidadeDisponivel > 0 && usuario.PodeEmprestar(EmprestimosDoUsuario(rs, usuario))
            && !JaPossui(rs, usuario, livro) && TemAtraso(rs, usuario, hoje))
  {
    ContagemDeAtrasos(rs, usuario, hoje);
  }

  /** Appending a loan row of member `u` raises the member's open-loan count by one when the row is open. */
  lemma AtivosDoUsuarioAppend(rs: seq<Registro>, x: Registro, u: Usuario)
    requires x.usuario == u && EmAberto(x)
    ensures u.EmprestimosAtivos(EmprestimosDoUsuario(rs + [x], u)) == u.EmprestimosAtivos(EmprestimosDoUsuario(rs, u)) + 1
  {
    Seqs.FilterAppend(rs, x, DoUsuario(u));
    Seqs.FilterAppend(EmprestimosDoUsuario(rs, u), x, EmAberto);
  }

  /**
   * The successful end of a checkout: a new `Ativo` loan of `livro` to `usuario`, due after the
   * member type's loan period, is stored, and one copy of the book leaves the shelf.
   */
  method Efetivar(db: Biblioteca, livro: Livro, usuario: Usuario, hoje: Date, observacoes: Option<string>)
    returns (emprestimo: Emprestimo)
    requires db.Valid()
    requires livro in db.livros && usuario in db.usuarios
    requires livro.quantidadeDisponivel > 0 && usuario.PodeEmprestar(EmprestimosDoUsuario(db.Registros(), usuario))
    modifies db`emprestimos, livro`quantidadeDisponivel
    ensures db.Valid()
    ensures fresh(emprestimo) && db.emprestimos == old(db.emprestimos) + [emprestimo]
    ensures emprestimo.livro == livro && emprestimo.usuario == usuario
    ensures emprestimo.Estado() ==
              Registro(livro, usuario, hoje, hoje + usuario.tipo.DiasEmprestimo(), None, Ativo, None, observacoes)
    ensures livro.quantidadeDisponivel == old(livro.quantidadeDisponivel) - 1
    ensures usuario.EmprestimosAtivos(EmprestimosDoUsuario(db.Registros(), usuario))
              == old(usuario.EmprestimosAtivos(EmprestimosDoUsuario(db.Registros(), usuario))) + 1
              <= usuario.limiteEmprestimos
  {
    ghost var rs := db.Registros();
    emprestimo := new Emprestimo(livro, usuario, hoje, hoje + usuario.tipo.DiasEmprestimo(), Some(Ativo), observacoes);
    ghost var novo := emprestimo.Estado();
    var emprestou := livro.Emprestar();
    assert emprestou == Pass;
    db.emprestimos := db.emprestimos + [emprestimo];
    assert emprestimo.Estado() == novo;
    db.ValidAposAcrescentar(emprestimo);
    AtivosDoUsuarioAppend(rs, novo, usuario);
  }

  /**
   * Checks out book `dto.livroId` to member `dto.usuarioId` on day `hoje`: the book is
   * looked up first, then the member, then the checkout rules are applied; on success the
   * loan is stored as `Efetivar` describes.
   */
  method Criar(db: Biblioteca, dto: EmprestimoRequest, hoje: Date) returns (r: Result<Emprestimo>)
    requires dto.Valido()
    requires db.Valid()
    modifies db`emprestimos, db.livros`quantidadeDisponivel
    ensures db.Valid()
    ensures old(db.LivroPorId(dto.livroId.value)).None? ==> r == Err(NotFound(LivroResource))
    ensures old(db.LivroPorId(dto.livroId.value)).Some? && old(db.UsuarioPorId(dto.usuarioId.value)).None? ==>
              r == Err(NotFound(UsuarioResource))
    ensures old(db.LivroPorId(dto.livroId.value)).Some? && old(db.UsuarioPorId(dto.usuarioId.value)).Some? ==>
              var v := old(ValidarEmprestimo(db.livros[dto.livroId.value - 1], db.usuarios[dto.usuarioId.value - 1],
                                             db.Registros(), hoje));
              (r.Ok? <==> v == Pass) && (r.Err? ==> v == Fail(r.error))
    ensures r.Err? ==> db.emprestimos == old(db.emprestimos)
    ensures r.Err? ==> forall i :: 0 <= i < |db.livros| ==> db.livros[i].quantidadeDisponivel == old(db.livros[i].quantidadeDisponivel)
    ensures r.Ok? ==>
              && 1 <= dto.livroId.value <= |db.livros| && 1 <= dto.usuarioId.value <= |db.usuarios|
              && fresh(r.value)
              && db.emprestimos == old(db.emprestimos) + [r.value]
              && r.value.Estado() == Registro(db.livros[dto.livroId.value - 1], db.usuarios[dto.usuarioId.value - 1], hoje,
                                              hoje + db.usuarios[dto.usuarioId.value - 1].tipo.DiasEmprestimo(),
                                              None, Ativo, None, dto.observacoes)
              && db.livros[dto.livroId.value - 1].quantidadeDisponivel
                   == old(db.livros[dto.livroId.value - 1].quantidadeDisponivel) - 1
              && (forall i :: 0 <= i < |db.livros| && db.livros[i] != db.livros[dto.livroId.value - 1] ==>
                    db.livros[i].quantidadeDisponivel == old(db.livros[i].quantidadeDisponivel))
  {
    var livroId := dto.livroId.value;
    var usuarioId := dto.usuarioId.value;
    if !(1 <= livroId <= |db.livros|) {
      r := Err(NotFound(LivroResource));
    } else if !(1 <= usuarioId <= |db.usuarios|) {
      r := Err(NotFound(UsuarioResource));
    } else {
      var livro := db.livros[livroId - 1];
      var usuario := db.usuarios[usuarioId - 1];
      var v := ValidarEmprestimo(livro, usuario, db.Registros(), hoje);
      if v.Fail? {
        r := Err(v.error);
      } else {
        assert livro.quantidadeDisponivel > 0 && usuario.PodeEmprestar(EmprestimosDoUsuario(db.Registros(), usuario)) by {
          ValidarEmprestimoPassa(livro, usuario, db.Registros(), hoje);
        }
        var emprestimo := Efetivar(db, livro, usuario, hoje, dto.observacoes);
        assert emprestimo.Estado() == Registro(db.livros[livroId - 1], db.usuarios[usuarioId - 1], hoje,
                                               hoje + db.usuarios[usuarioId - 1].tipo.DiasEmprestimo(),
                                               None, Ativo, None, dto.observacoes);
        r := Ok(emprestimo);
      }
    }
  }

  /**
   * Returns loan `id` on day `hoje`. A loan that already has a return date is refused; any
   * other loan, whether `Ativo` or `Renovado`, is marked returned and its copy goes back on the shelf.
   */
  method Devolver(db: Biblioteca, id: int, hoje: Date) returns (r: Result<Emprestimo>)
    requires db.Valid()
    modifies db.EmprestimoAlvo(id)`dataDevolucao, db.EmprestimoAlvo(id)`status,
             db.LivroDoEmprestimo(id)`quantidadeDisponivel
    ensures db.Valid()
    ensures !(1 <= id <= |db.emprestimos|) ==> r == Err(NotFound(EmprestimoResource))
    ensures 1 <= id <= |db.emprestimos| && old(db.emprestimos[id - 1].dataDevolucao).Some? ==>
              r == Err(Business(AlreadyReturned))
    ensures r.Ok? <==> 1 <= id <= |db.emprestimos| && old(db.emprestimos[id - 1].dataDevolucao).None?
    ensures r.Err? && 1 <= id <= |db.emprestimos| ==>
              && db.emprestimos[id - 1].Estado() == old(db.emprestimos[id - 1].Estado())
              && db.emprestimos[id - 1].livro.quantidadeDisponivel == old(db.emprestimos[id - 1].livro.quantidadeDisponivel)
    ensures r.Ok? ==>
              && r.value == db.emprestimos[id - 1]
              && old(db.emprestimos[id - 1].status) != Devolvido
              && r.value.Estado() == old(db.emprestimos[id - 1].Estado()).(dataDevolucao := Some(hoje), status := Devolvido)
              && r.value.livro.quantidadeDisponivel == old(db.emprestimos[id - 1].livro.quantidadeDisponivel) + 1
  {
    if !(1 <= id <= |db.emprestimos|) {
      r := Err(NotFound(EmprestimoResource));
    } else if db.emprestimos[id - 1].dataDevolucao.Some? {
      r := Err(Business(AlreadyReturned));
    } else {
      var emprestimo := db.emprestimos[id - 1];
      db.AbertoOcupaExemplar(id - 1);
      emprestimo.Devolver(hoje);
      var devolveu := emprestimo.livro.Devolver();
      assert devolveu == Pass;
      r := Ok(emprestimo);
      db.ValidAposSubstituir(id - 1);
    }
  }

  /**
   * Renews loan `id` for `dias` more days. The day count is checked (1 to 30) before the loan
   * is looked up; the loan itself then accepts or refuses the renewal.
   */
  method Renovar(db: Biblioteca, id: int, dias: int, hoje: Date) returns (r: Result<Emprestimo>)
    requires db.Valid()
    modifies db.EmprestimoAlvo(id)`dataPrevistaDevolucao, db.EmprestimoAlvo(id)`status
    ensures db.Valid()
    ensures !(1 <= dias <= 30) ==> r == Err(Business(RenewalDaysOutOfRange))
    ensures 1 <= dias <= 30 && !(1 <= id <= |db.emprestimos|) ==> r == Err(NotFound(EmprestimoResource))
    ensures 1 <= dias <= 30 && 1 <= id <= |db.emprestimos| ==>
              var e := old(db.emprestimos[id - 1].Estado());
              && (e.status != Ativo ==> r == Err(IllegalState(OnlyActiveLoansRenew)))
              && (e.status == Ativo && e.IsAtrasado(hoje) ==> r == Err(IllegalState(OverdueLoanRenewal)))
              && (r.Ok? <==> e.status == Ativo && !e.IsAtrasado(hoje))
    ensures r.Err? && 1 <= id <= |db.emprestimos| ==> db.emprestimos[id - 1].Estado() == old(db.emprestimos[id - 1].Estado())
    ensures r.Ok? ==>
              && r.value == db.emprestimos[id - 1]
              && var e := old(db.emprestimos[id - 1].Estado());
                 r.value.Estado() == e.(dataPrevistaDevolucao := e.dataPrevistaDevolucao + dias, status := Renovado)
  {
    if dias <= 0 || dias > 30 {
      r := Err(Business(RenewalDaysOutOfRange));
    } else if !(1 <= id <= |db.emprestimos|) {
      r := Err(NotFound(EmprestimoResource));
    } else {
      var emprestimo := db.emprestimos[id - 1];
      var renovou := emprestimo.Renovar(dias, hoje);
      if renovou.Fail? {
        r := Err(renovou.error);
      } else {
        r := Ok(emprestimo);
        db.ValidAposSubstituir(id - 1);
      }
    }
  }

  /** The loan with id `id` (`buscarPorId`). */
  function BuscarPorId(db: Biblioteca, id: int): (r: Result<Registro>)
    reads db, db.emprestimos
    ensures r.Err? <==> !(1 <= id <= |db.emprestimos|)
    ensures r.Err? ==> r.error == NotFound(EmprestimoResource)
    ensures r.Ok? ==> r.value == db.Registros()[id - 1]
  {
    match db.EmprestimoPorId(id)
    case None => Err(NotFound(EmprestimoResource))
    case Some(e) => Ok(e.Estado())
  }

  /** A member's loans, newest first (`listarPorUsuario`); an unknown member is NotFound. */
  function ListarPorUsuario(db: Biblioteca, usuarioId: int): (r: Result<seq<Registro>>)
    reads db, db.emprestimos
    ensures r.Err? <==> db.UsuarioPorId(usuarioId).None?
    ensures r.Err? ==> r.error == NotFound(UsuarioResource)
    ensures r.Ok? ==>
              && multiset(r.value) == multiset(EmprestimosDoUsuario(db.Registros(), db.usuarios[usuarioId - 1]))
              && forall i, j :: 0 <= i < j < |r.value| ==> r.value[i].dataEmprestimo >= r.value[j].dataEmprestimo
  {
    match db.UsuarioPorId(usuarioId)
    case None => Err(NotFound(UsuarioResource))
    case Some(u) => Ok(FindByUsuarioIdOrderByDataEmprestimoDesc(db.Registros(), u))
  }

  /** The loans overdue today (`listarAtrasados`). */
  function ListarAtrasados(db: Biblioteca, hoje: Date): (r: seq<Registro>)
    reads db, db.emprestimos
    ensures forall i :: 0 <= i < |r| ==> r[i] in db.Registros() && r[i].IsAtrasado(hoje)
    ensures forall i :: 0 <= i < |db.emprestimos| && db.emprestimos[i].Estado().IsAtrasado(hoje) ==>
              db.emprestimos[i].Estado() in r
    ensures var rs := db.Registros();
            forall x {:trigger multiset(r)[x]} :: x in r + rs ==>
              multiset(r)[x] == if x.IsAtrasado(hoje) then multiset(rs)[x] else 0
  {
    Seqs.FilterSub(db.Registros(), AtrasadoEm(hoje));
    FindEmprestimosAtrasados(db.Registros(), hoje)
  }
}
