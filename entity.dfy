/**
 * The three persistent entities: books with their copy counter, members, and loans.
 * Each is a class because the services update its fields in place; an entity's id is
 * its position in the store (see `Persistence`), so it is not a field here.
 */
module Entity {
  import opened Common
  import opened Enums
  import Seqs

  /** A catalogue entry and its stock of physical copies. */
  class Livro {
    var isbn: string
    var titulo: string
    var autor: string
    var editora: Option<string>
    var anoPublicacao: Option<int>
    var quantidadeTotal: int
    var quantidadeDisponivel: int
    var valorMultaDiaria: Option<Money>
    /** The id of the book's category, when it has one. */
    var categoria: Option<int>
    var ativo: bool

    /** The builder: `ativo` defaults to true when not given. */
    constructor (isbn: string, titulo: string, autor: string, editora: Option<string>,
                 anoPublicacao: Option<int>, quantidadeTotal: int, quantidadeDisponivel: int,
                 valorMultaDiaria: Option<Money>, categoria: Option<int>, ativo: Option<bool>)
      ensures this.isbn == isbn && this.titulo == titulo && this.autor == autor
      ensures this.editora == editora && this.anoPublicacao == anoPublicacao
      ensures this.quantidadeTotal == quantidadeTotal && this.quantidadeDisponivel == quantidadeDisponivel
      ensures this.valorMultaDiaria == valorMultaDiaria && this.categoria == categoria
      ensures ativo.None? ==> this.ativo
      ensures ativo.Some? ==> this.ativo == ativo.value
    {
      this.isbn := isbn;
      this.titulo := titulo;
      this.autor := autor;
      this.editora := editora;
      this.anoPublicacao := anoPublicacao;
      this.quantidadeTotal := quantidadeTotal;
      this.quantidadeDisponivel := quantidadeDisponivel;
      this.valorMultaDiaria := valorMultaDiaria;
      this.categoria := categoria;
      this.ativo := if ativo.Some? then ativo.value else true;
    }

    /** The book's current column values. */
    function Ficha(): DadosLivro
      reads this
    {
      DadosLivro(isbn, titulo, autor, editora, anoPublicacao, quantidadeTotal, quantidadeDisponivel,
                 valorMultaDiaria, categoria, ativo)
    }

    /** The bounded-counter invariant on copies. */
    predicate EstoqueValido()
      reads this
    {
      0 <= quantidadeDisponivel <= quantidadeTotal
    }

    /** Hands out one copy; refused, with nothing changed, when none is available. */
    method Emprestar() returns (r: Outcome)
      modifies this`quantidadeDisponivel
      ensures old(quantidadeDisponivel) <= 0 ==>
                r == Fail(IllegalState(NoCopiesToLend)) && quantidadeDisponivel == old(quantidadeDisponivel)
      ensures old(quantidadeDisponivel) > 0 ==>
                r == Pass && quantidadeDisponivel == old(quantidadeDisponivel) - 1
      ensures old(EstoqueValido()) ==> EstoqueValido()
    {
      if quantidadeDisponivel <= 0 {
        return Fail(IllegalState(NoCopiesToLend));
      }
      quantidadeDisponivel := quantidadeDisponivel - 1;
      r := Pass;
    }

    /** Takes one copy back; refused, with nothing changed, when every copy is already on the shelf. */
    method Devolver() returns (r: Outcome)
      modifies this`quantidadeDisponivel
      ensures old(quantidadeDisponivel) >= quantidadeTotal ==>
                r == Fail(IllegalState(AvailableWouldExceedTotal)) && quantidadeDisponivel == old(quantidadeDisponivel)
      ensures old(quantidadeDisponivel) < quantidadeTotal ==>
                r == Pass && quantidadeDisponivel == old(quantidadeDisponivel) + 1
      ensures old(EstoqueValido()) ==> EstoqueValido()
    {
      if quantidadeDisponivel >= quantidadeTotal {
        return Fail(IllegalState(AvailableWouldExceedTotal));
      }
      quantidadeDisponivel := quantidadeDisponivel + 1;
      r := Pass;
    }
  }

  /** The column values of one book at one moment. */
  datatype DadosLivro = DadosLivro(
    isbn: string,
    titulo: string,
    autor: string,
    editora: Option<string>,
    anoPublicacao: Option<int>,
    quantidadeTotal: int,
    quantidadeDisponivel: int,
    valorMultaDiaria: Option<Money>,
    categoria: Option<int>,
    ativo: bool)

  /** Lending a copy and taking it back leaves the counter where it was; both calls succeed on a valid counter with a copy available. */
  method EmprestarDevolverRestaura(livro: Livro) returns (emprestou: Outcome, devolveu: Outcome)
    requires livro.EstoqueValido()
    modifies livro`quantidadeDisponivel
    ensures emprestou == Pass <==> old(livro.quantidadeDisponivel) > 0
    ensures emprestou == Pass ==> devolveu == Pass
    ensures livro.quantidadeDisponivel == old(livro.quantidadeDisponivel)
    ensures livro.EstoqueValido()
  {
    emprestou := livro.Emprestar();
    devolveu := Pass;
    if emprestou == Pass {
      devolveu := livro.Devolver();
    }
  }

  /** A registered library member. */
  class Usuario {
    var nome: string
    var email: string
    var cpf: string
    var telefone: Option<string>
    var tipo: TipoUsuario
    var ativo: bool
    var limiteEmprestimos: int

    /** The builder: `ativo` defaults to true and `limiteEmprestimos` to 3 when not given. */
    constructor (nome: string, email: string, cpf: string, telefone: Option<string>,
                 tipo: TipoUsuario, ativo: Option<bool>, limiteEmprestimos: Option<int>)
      ensures this.nome == nome && this.email == email && this.cpf == cpf
      ensures this.telefone == telefone && this.tipo == tipo
      ensures ativo.None? ==> this.ativo
      ensures ativo.Some? ==> this.ativo == ativo.value
      ensures limiteEmprestimos.None? ==> this.limiteEmprestimos == 3
      ensures limiteEmprestimos.Some? ==> this.limiteEmprestimos == limiteEmprestimos.value
    {
      this.nome := nome;
      this.email := email;
      this.cpf := cpf;
      this.telefone := telefone;
      this.tipo := tipo;
      this.ativo := if ativo.Some? then ativo.value else true;
      this.limiteEmprestimos := if limiteEmprestimos.Some? then limiteEmprestimos.value else 3;
    }

    /** The member's current column values. */
    function Ficha(): DadosUsuario
      reads this
    {
      DadosUsuario(nome, email, cpf, telefone, tipo, ativo, limiteEmprestimos)
    }

    /**
     * The number of this member's loans not yet returned; `emprestimos` is the member's
     * loan list (the inverse side of the loan-to-member association).
     */
    function EmprestimosAtivos(emprestimos: seq<Registro>): (n: nat)
      ensures n <= |emprestimos|
    {
      |Seqs.Filter(emprestimos, EmAberto)|
    }

    /** Whether the member may take one more loan. */
    predicate PodeEmprestar(emprestimos: seq<Registro>)
      reads this
    {
      ativo && EmprestimosAtivos(emprestimos) < limiteEmprestimos
    }
  }

  /** The column values of one member at one moment. */
  datatype DadosUsuario = DadosUsuario(
    nome: string,
    email: string,
    cpf: string,
    telefone: Option<string>,
    tipo: TipoUsuario,
    ativo: bool,
    limiteEmprestimos: int)

  /** A member has no open loan exactly when no loan in the member's list lacks a return date. */
  lemma SemEmprestimosAtivos(u: Usuario, emprestimos: seq<Registro>)
    ensures u.EmprestimosAtivos(emprestimos) == 0 <==> forall i :: 0 <= i < |emprestimos| ==> !EmAberto(emprestimos[i])
  {
    var abertos := Seqs.Filter(emprestimos, EmAberto);
    Seqs.FilterSub(emprestimos, EmAberto);
    Seqs.FilterProps(emprestimos, EmAberto);
    if abertos != [] {
      assert abertos[0] in multiset(emprestimos);
      var k :| 0 <= k < |emprestimos| && emprestimos[k] == abertos[0];
    }
  }

  /**
   * A member who may borrow stays within the limit after borrowing: one more open loan in the
   * member's list raises the open-loan count by exactly one, to at most the limit.
   */
  lemma NovoEmprestimoNoLimite(u: Usuario, emprestimos: seq<Registro>, e: Registro)
    requires u.PodeEmprestar(emprestimos) && EmAberto(e)
    ensures u.EmprestimosAtivos(emprestimos + [e]) == u.EmprestimosAtivos(emprestimos) + 1 <= u.limiteEmprestimos
  {
    Seqs.FilterAppend(emprestimos, e, EmAberto);
  }

  /** Returning one of the member's open loans lowers the open-loan count by exactly one. */
  lemma DevolucaoReduzAtivos(u: Usuario, emprestimos: seq<Registro>, k: int, hoje: Date)
    requires 0 <= k < |emprestimos| && EmAberto(emprestimos[k])
    ensures u.EmprestimosAtivos(emprestimos[k := emprestimos[k].(dataDevolucao := Some(hoje))])
            == u.EmprestimosAtivos(emprestimos) - 1
  {
    Seqs.FilterUpdate(emprestimos, k, emprestimos[k].(dataDevolucao := Some(hoje)), EmAberto);
  }

  /** Whether a loan row has not been returned yet (`dataDevolucao IS NULL`). */
  predicate EmAberto(r: Registro)
  {
    r.dataDevolucao.None?
  }

  /** The column values of one loan at one moment. */
  datatype Registro = Registro(
    livro: Livro,
    usuario: Usuario,
    dataEmprestimo: Date,
    dataPrevistaDevolucao: Date,
    dataDevolucao: Option<Date>,
    status: StatusEmprestimo,
    valorMulta: Option<Money>,
    observacoes: Option<string>)
  {
    /** The loan is overdue: not returned, and today is past its due date. */
    predicate IsAtrasado(hoje: Date)
    {
      dataDevolucao.None? && hoje > dataPrevistaDevolucao
    }

    /** Days overdue: 0 unless the loan is overdue, else the days from the due date to today. */
    function DiasAtraso(hoje: Date): (d: nat)
      ensures d == 0 <==> !IsAtrasado(hoje)
      ensures IsAtrasado(hoje) ==> dataPrevistaDevolucao + d == hoje
    {
      if !IsAtrasado(hoje) then 0 else hoje - dataPrevistaDevolucao
    }

    /** Status and return date agree: a loan is `Devolvido` exactly when it has a return date. */
    predicate Consistente()
    {
      dataDevolucao.Some? <==> status == Devolvido
    }
  }

  /** A loan of one copy of `livro` to `usuario`. */
  class Emprestimo {
    const livro: Livro
    const usuario: Usuario
    var dataEmprestimo: Date
    var dataPrevistaDevolucao: Date
    var dataDevolucao: Option<Date>
    var status: StatusEmprestimo
    var valorMulta: Option<Money>
    var observacoes: Option<string>

    /** The loan's current column values. */
    function Estado(): Registro
      reads this`dataEmprestimo, this`dataPrevistaDevolucao, this`dataDevolucao, this`status,
            this`valorMulta, this`observacoes
    {
      Registro(livro, usuario, dataEmprestimo, dataPrevistaDevolucao, dataDevolucao,
               status, valorMulta, observacoes)
    }

    /** The builder as the loan service uses it: `status` defaults to `Ativo`; no return date and no fine. */
    constructor (livro: Livro, usuario: Usuario, dataEmprestimo: Date, dataPrevistaDevolucao: Date,
                 status: Option<StatusEmprestimo>, observacoes: Option<string>)
      ensures Estado() == Registro(livro, usuario, dataEmprestimo, dataPrevistaDevolucao, None,
                                   if status.Some? then status.value else Ativo, None, observacoes)
    {
      this.livro := livro;
      this.usuario := usuario;
      this.dataEmprestimo := dataEmprestimo;
      this.dataPrevistaDevolucao := dataPrevistaDevolucao;
      this.dataDevolucao := None;
      this.status := if status.Some? then status.value else Ativo;
      this.valorMulta := None;
      this.observacoes := observacoes;
    }

    /**
     * Marks the loan returned today. The fine computation that follows finds the loan no
     * longer overdue (it now has a return date), so it records no fine.
     */
    method Devolver(hoje: Date)
      modifies this`dataDevolucao, this`status
      ensures Estado() == old(Estado()).(dataDevolucao := Some(hoje), status := Devolvido)
      ensures !Estado().IsAtrasado(hoje) && Estado().DiasAtraso(hoje) == 0
      ensures Estado().Consistente()
    {
      dataDevolucao := Some(hoje);
      status := Devolvido;
      var multa := CalcularMulta(hoje);
      assert multa == Pass;
    }

    /**
     * The fine computation. It acts only when the loan is overdue and the book has a daily
     * rate; overdue means the return date is still null, and the day count from the due
     * date to that null return date then throws a NullPointerException. So the fine field
     * is never written: every call either leaves the loan untouched or fails.
     */
    method CalcularMulta(hoje: Date) returns (r: Outcome)
      ensures r == Pass <==> !(Estado().IsAtrasado(hoje) && livro.valorMultaDiaria.Some?)
      ensures r != Pass ==> r == Fail(NullPointer)
    {
      if Estado().IsAtrasado(hoje) && livro.valorMultaDiaria.Some? {
        var dias := DiasEntre(dataPrevistaDevolucao, dataDevolucao);
        if dias.Err? {
          return Fail(dias.error);
        }
        assert false;
      }
      r := Pass;
    }

    /**
     * Pushes the due date `dias` days forward and marks the loan renewed. Only an `Ativo`
     * loan that is not overdue can be renewed; otherwise nothing changes.
     */
    method Renovar(dias: int, hoje: Date) returns (r: Outcome)
      modifies this`dataPrevistaDevolucao, this`status
      ensures old(status) != Ativo ==> r == Fail(IllegalState(OnlyActiveLoansRenew))
      ensures old(status) == Ativo && old(Estado()).IsAtrasado(hoje) ==> r == Fail(IllegalState(OverdueLoanRenewal))
      ensures r.Fail? ==> unchanged(this)
      ensures r == Pass <==> old(status) == Ativo && !old(Estado()).IsAtrasado(hoje)
      ensures r == Pass ==> Estado() == old(Estado()).(dataPrevistaDevolucao := old(dataPrevistaDevolucao) + dias,
                                                        status := Renovado)
    {
      if status != Ativo {
        return Fail(IllegalState(OnlyActiveLoansRenew));
      }
      if Estado().IsAtrasado(hoje) {
        return Fail(IllegalState(OverdueLoanRenewal));
      }
      dataPrevistaDevolucao := dataPrevistaDevolucao + dias;
      status := Renovado;
      r := Pass;
    }
  }

  /** `ChronoUnit.DAYS.between(a, b)`: `b - a`, or a NullPointerException when `b` is null. */
  function DiasEntre(a: Date, b: Option<Date>): (r: Result<int>)
    ensures r.Err? <==> b.None?
    ensures r.Ok? ==> a + r.value == b.value
  {
    if b.None? then Err(NullPointer) else Ok(b.value - a)
  }
}
