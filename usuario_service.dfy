/**
 * The member service: registration and editing under unique e-mail and CPF, deactivation
 * refused while the member holds books, and the eligibility query. Each call is one
 * transaction: a failed call leaves the database as it was.
 */
module UsuarioService {
  import opened Common
  import opened Entity
  import opened Requests
  import opened Mappers
  import opened Persistence
  import opened EmprestimoRepository
  import opened EmprestimoService
  import Seqs

  /** `findByEmail`: the position of the member with this e-mail, if there is one. */
  function FindByEmail(db: Biblioteca, email: string): (r: Option<nat>)
    reads db`usuarios, db.usuarios`email
    ensures r.None? <==> forall i :: 0 <= i < |db.usuarios| ==> db.usuarios[i].email != email
    ensures r.Some? ==> r.value < |db.usuarios| && db.usuarios[r.value].email == email
  {
    var emails := Emails(db.usuarios);
    assert forall i :: 0 <= i < |db.usuarios| ==> emails[i] == db.usuarios[i].email;
    Seqs.IndiceDe(emails, email)
  }

  /** `findByCpf`: the position of the member with this CPF, if there is one. */
  function FindByCpf(db: Biblioteca, cpf: string): (r: Option<nat>)
    reads db`usuarios, db.usuarios`cpf
    ensures r.None? <==> forall i :: 0 <= i < |db.usuarios| ==> db.usuarios[i].cpf != cpf
    ensures r.Some? ==> r.value < |db.usuarios| && db.usuarios[r.value].cpf == cpf
  {
    var cpfs := Cpfs(db.usuarios);
    assert forall i :: 0 <= i < |db.usuarios| ==> cpfs[i] == db.usuarios[i].cpf;
    Seqs.IndiceDe(cpfs, cpf)
  }

  /** The member at position `k` is not the one whose id is `idExcluir` (a missing `idExcluir` excludes nobody). */
  predicate Outro(k: nat, idExcluir: Option<int>)
  {
    idExcluir.None? || k + 1 != idExcluir.value
  }

  /**
   * `validarUsuarioUnico`: refused when the e-mail belongs to a member other than `idExcluir`,
   * else when the CPF does. With no member excluded, it passes exactly when neither is registered.
   */
  function ValidarUsuarioUnico(db: Biblioteca, email: string, cpf: string, idExcluir: Option<int>): (r: Outcome)
    reads db`usuarios, db.usuarios`email, db.usuarios`cpf
    ensures r == Pass || r == Fail(Business(DuplicateEmail)) || r == Fail(Business(DuplicateCpf))
    ensures idExcluir.None? ==>
              (r == Pass <==> forall i :: 0 <= i < |db.usuarios| ==> db.usuarios[i].email != email && db.usuarios[i].cpf != cpf)
  {
    var porEmail := FindByEmail(db, email);
    var porCpf := FindByCpf(db, cpf);
    if porEmail.Some? && Outro(porEmail.value, idExcluir) then Fail(Business(DuplicateEmail))
    else if porCpf.Some? && Outro(porCpf.value, idExcluir) then Fail(Business(DuplicateCpf))
    else Pass
  }

  /**
   * With e-mail and CPF unique, the check refuses an e-mail exactly when some other member
   * holds it, and a CPF exactly when the e-mail is free of others and some other member holds
   * the CPF; it passes exactly when only the excluded member holds either.
   */
  lemma UnicidadeExata(db: Biblioteca, email: string, cpf: string, idExcluir: Option<int>)
    requires db.Identidades()
    ensures var r := ValidarUsuarioUnico(db, email, cpf, idExcluir);
            var emailDeOutro := exists i :: 0 <= i < |db.usuarios| && db.usuarios[i].email == email && Outro(i, idExcluir);
            var cpfDeOutro := exists i :: 0 <= i < |db.usuarios| && db.usuarios[i].cpf == cpf && Outro(i, idExcluir);
            && (r == Fail(Business(DuplicateEmail)) <==> emailDeOutro)
            && (r == Fail(Business(DuplicateCpf)) <==> !emailDeOutro && cpfDeOutro)
            && (r == Pass <==> !emailDeOutro && !cpfDeOutro)
  {
    var us := db.usuarios;
    var porEmail := FindByEmail(db, email);
    var porCpf := FindByCpf(db, cpf);
    if exists i :: 0 <= i < |us| && us[i].email == email && Outro(i, idExcluir) {
      var i :| 0 <= i < |us| && us[i].email == email && Outro(i, idExcluir);
      assert porEmail == Some(i);
    }
    if exists i :: 0 <= i < |us| && us[i].cpf == cpf && Outro(i, idExcluir) {
      var i :| 0 <= i < |us| && us[i].cpf == cpf && Outro(i, idExcluir);
      assert porCpf == Some(i);
    }
  }

  /** A member who keeps its own e-mail and CPF passes the check that excludes its own id. */
  lemma ProprioCadastroPermitido(db: Biblioteca, id: int)
    requires db.Valid() && 1 <= id <= |db.usuarios|
    ensures ValidarUsuarioUnico(db, db.usuarios[id - 1].email, db.usuarios[id - 1].cpf, Some(id)) == Pass
  {
    UnicidadeExata(db, db.usuarios[id - 1].email, db.usuarios[id - 1].cpf, Some(id));
    assert db.Identidades();
  }

  /**
   * Registers a member (`criar`): the uniqueness check runs first; on success the member is
   * stored active, with the borrowing limit of its type.
   */
  method Criar(db: Biblioteca, dto: UsuarioRequest) returns (r: Result<Usuario>)
    requires dto.Completo()
    requires db.Valid()
    modifies db`usuarios
    ensures db.Valid()
    ensures var v := old(ValidarUsuarioUnico(db, dto.email.value, dto.cpf.value, None));
            (r.Ok? <==> v == Pass) && (r.Err? ==> v == Fail(r.error))
    ensures r.Err? ==> db.usuarios == old(db.usuarios)
    ensures r.Ok? ==>
              && fresh(r.value) && db.usuarios == old(db.usuarios) + [r.value]
              && r.value.Ficha() == DadosUsuario(dto.nome.value, dto.email.value, dto.cpf.value, dto.telefone,
                                                 dto.tipo.value, true, dto.tipo.value.LimiteEmprestimos())
  {
    var v := ValidarUsuarioUnico(db, dto.email.value, dto.cpf.value, None);
    if v.Fail? {
      r := Err(v.error);
    } else {
      var usuario := UsuarioToEntity(dto);
      db.usuarios := db.usuarios + [usuario];
      db.ValidAposNovoUsuario(usuario);
      r := Ok(usuario);
    }
  }

  /**
   * Edits member `id` (`atualizar`): an unknown id is NotFound before any uniqueness check;
   * the check excludes the member itself; on success the request is written into the member
   * and its limit is recomputed from its type.
   */
  method Atualizar(db: Biblioteca, id: int, dto: UsuarioRequest) returns (r: Result<Usuario>)
    requires dto.Completo()
    requires db.Valid()
    modifies db.UsuarioAlvo(id)`nome, db.UsuarioAlvo(id)`email, db.UsuarioAlvo(id)`cpf,
             db.UsuarioAlvo(id)`telefone, db.UsuarioAlvo(id)`tipo, db.UsuarioAlvo(id)`limiteEmprestimos
    ensures db.Valid()
    ensures !(1 <= id <= |db.usuarios|) ==> r == Err(NotFound(UsuarioResource))
    ensures 1 <= id <= |db.usuarios| ==>
              var v := old(ValidarUsuarioUnico(db, dto.email.value, dto.cpf.value, Some(id)));
              var f := old(db.usuarios[id - 1].Ficha());
              && (r.Ok? <==> v == Pass) && (r.Err? ==> v == Fail(r.error))
              && (r.Err? ==> db.usuarios[id - 1].Ficha() == f)
              && (r.Ok? ==>
                    && r.value == db.usuarios[id - 1]
                    && r.value.Ficha() == f.(nome := dto.nome.value, email := dto.email.value, cpf := dto.cpf.value,
                                             telefone := if dto.telefone.Some? then dto.telefone else f.telefone,
                                             tipo := dto.tipo.value, limiteEmprestimos := dto.tipo.value.LimiteEmprestimos()))
  {
    if !(1 <= id <= |db.usuarios|) {
      r := Err(NotFound(UsuarioResource));
    } else {
      var usuario := db.usuarios[id - 1];
      var v := ValidarUsuarioUnico(db, dto.email.value, dto.cpf.value, Some(id));
      if v.Fail? {
        r := Err(v.error);
      } else {
        UnicidadeExata(db, dto.email.value, dto.cpf.value, Some(id));
        assert db.Identidades();
        UsuarioUpdateEntityFromDTO(dto, usuario);
        db.ValidAposEditarUsuario(id - 1);
        r := Ok(usuario);
      }
    }
  }

  /** Member `u` holds a loan with no return date. */
  ghost predicate TemEmprestimoAberto(rs: seq<Registro>, u: Usuario)
  {
    exists i :: 0 <= i < |rs| && rs[i].usuario == u && EmAberto(rs[i])
  }

  /** The member's open-loan count is positive exactly when the member holds a loan with no return date. */
  lemma AtivosSeAberto(rs: seq<Registro>, u: Usuario)
    ensures u.EmprestimosAtivos(EmprestimosDoUsuario(rs, u)) > 0 <==> TemEmprestimoAberto(rs, u)
  {
    var doUsuario := EmprestimosDoUsuario(rs, u);
    SemEmprestimosAtivos(u, doUsuario);
    if u.EmprestimosAtivos(doUsuario) > 0 {
      var j :| 0 <= j < |doUsuario| && EmAberto(doUsuario[j]);
      Seqs.FilterSub(rs, DoUsuario(u));
      assert doUsuario[j] in multiset(rs);
      var i :| 0 <= i < |rs| && rs[i] == doUsuario[j];
      assert rs[i].usuario == u && EmAberto(rs[i]);
    }
    if TemEmprestimoAberto(rs, u) {
      var i :| 0 <= i < |rs| && rs[i].usuario == u && EmAberto(rs[i]);
      assert rs[i] in doUsuario;
    }
  }

  /**
   * Deactivates member `id` (`deletar`): refused while the member holds a loan with no return
   * date; otherwise only its `ativo` flag changes. An unknown id is NotFound.
   */
  method Deletar(db: Biblioteca, id: int) returns (r: Outcome)
    requires db.Valid()
    modifies db.UsuarioAlvo(id)`ativo
    ensures db.Valid()
    ensures !(1 <= id <= |db.usuarios|) ==> r == Fail(NotFound(UsuarioResource))
    ensures 1 <= id <= |db.usuarios| ==>
              && (r == Fail(Business(UserHoldsLoans)) <==> TemEmprestimoAberto(db.Registros(), db.usuarios[id - 1]))
              && (r == Pass <==> !TemEmprestimoAberto(db.Registros(), db.usuarios[id - 1]))
    ensures r != Pass && 1 <= id <= |db.usuarios| ==> db.usuarios[id - 1].Ficha() == old(db.usuarios[id - 1].Ficha())
    ensures r == Pass ==> db.usuarios[id - 1].Ficha() == old(db.usuarios[id - 1].Ficha()).(ativo := false)
  {
    if !(1 <= id <= |db.usuarios|) {
      r := Fail(NotFound(UsuarioResource));
    } else {
      var usuario := db.usuarios[id - 1];
      var rs := db.Registros();
      AtivosSeAberto(rs, usuario);
      if usuario.EmprestimosAtivos(EmprestimosDoUsuario(rs, usuario)) > 0 {
        r := Fail(Business(UserHoldsLoans));
      } else {
        usuario.ativo := false;
        r := Pass;
      }
    }
  }

  /** Whether member `id` may borrow (`podeEmprestar`); an unknown id is NotFound. */
  function PodeEmprestar(db: Biblioteca, id: int): (r: Result<bool>)
    reads db`usuarios, db.usuarios, db`emprestimos, db.emprestimos
    ensures r.Err? <==> !(1 <= id <= |db.usuarios|)
    ensures r.Err? ==> r.error == NotFound(UsuarioResource)
    ensures r.Ok? ==>
              (r.value <==> db.usuarios[id - 1].ativo &&
                            CountEmprestimosAtivosByUsuarioId(db.Registros(), db.usuarios[id - 1]) < db.usuarios[id - 1].limiteEmprestimos)
  {
    match db.UsuarioPorId(id)
    case None => Err(NotFound(UsuarioResource))
    case Some(u) => Ok(u.PodeEmprestar(EmprestimosDoUsuario(db.Registros(), u)))
  }

  /**
   * The eligibility query agrees with checkout: for an active book with a copy on the shelf,
   * the member is refused as inactive or at its limit exactly when the query answers false.
   */
  lemma PodeEmprestarNoCheckout(db: Biblioteca, id: int, livro: Livro, hoje: Date)
    requires 1 <= id <= |db.usuarios|
    requires livro.ativo && livro.quantidadeDisponivel > 0
    ensures var v := ValidarEmprestimo(livro, db.usuarios[id - 1], db.Registros(), hoje);
            PodeEmprestar(db, id) == Ok(false) <==>
              v == Fail(Business(UserInactive)) || v == Fail(Business(LoanLimitReached))
  {
    RegraVioladaPrimeiro(livro, db.usuarios[id - 1], db.Registros(), hoje);
  }
}
