/**
 * The request-to-entity mappers: how a new book or member gets its initial state, and how
 * an update request is written into an existing entity (absent values leave the field as it is).
 */
module Mappers {
  import opened Common
  import opened Enums
  import opened Entity
  import opened Requests

  /** The "ignore null values" update strategy: a present value replaces the current one. */
  function Mesclar<T>(novo: Option<T>, atual: T): (r: T)
    ensures novo.Some? ==> r == novo.value
    ensures novo.None? ==> r == atual
  {
    if novo.Some? then novo.value else atual
  }

  /** A new book from a request: every copy available, active, category taken from `categoriaId`. */
  method LivroToEntity(dto: LivroRequest) returns (livro: Livro)
    requires dto.Completo()
    ensures fresh(livro)
    ensures livro.isbn == dto.isbn.value && livro.titulo == dto.titulo.value && livro.autor == dto.autor.value
    ensures livro.editora == dto.editora && livro.anoPublicacao == dto.anoPublicacao
    ensures livro.valorMultaDiaria == dto.valorMultaDiaria
    ensures livro.quantidadeTotal == dto.quantidadeTotal.value
    ensures livro.quantidadeDisponivel == livro.quantidadeTotal
    ensures livro.ativo && livro.categoria == dto.categoriaId
    ensures dto.Valido() ==> livro.EstoqueValido() && livro.quantidadeTotal >= 1
  {
    livro := new Livro(dto.isbn.value, dto.titulo.value, dto.autor.value, dto.editora,
                       dto.anoPublicacao, dto.quantidadeTotal.value, dto.quantidadeTotal.value,
                       dto.valorMultaDiaria, dto.categoriaId, Some(true));
  }

  /**
   * Writes a book request into an existing book. Present values replace the current ones; the
   * request has no field for available copies or for the active flag, so those are not written.
   */
  method LivroUpdateEntityFromDTO(dto: LivroRequest, livro: Livro)
    modifies livro`isbn, livro`titulo, livro`autor, livro`editora, livro`anoPublicacao,
             livro`quantidadeTotal, livro`valorMultaDiaria, livro`categoria
    ensures livro.isbn == Mesclar(dto.isbn, old(livro.isbn))
    ensures livro.titulo == Mesclar(dto.titulo, old(livro.titulo))
    ensures livro.autor == Mesclar(dto.autor, old(livro.autor))
    ensures livro.editora == (if dto.editora.Some? then dto.editora else old(livro.editora))
    ensures livro.anoPublicacao == (if dto.anoPublicacao.Some? then dto.anoPublicacao else old(livro.anoPublicacao))
    ensures livro.quantidadeTotal == Mesclar(dto.quantidadeTotal, old(livro.quantidadeTotal))
    ensures livro.valorMultaDiaria == (if dto.valorMultaDiaria.Some? then dto.valorMultaDiaria else old(livro.valorMultaDiaria))
    ensures livro.categoria == (if dto.categoriaId.Some? then dto.categoriaId else old(livro.categoria))
    ensures livro.quantidadeDisponivel == old(livro.quantidadeDisponivel) && livro.ativo == old(livro.ativo)
  {
    livro.isbn := Mesclar(dto.isbn, livro.isbn);
    livro.titulo := Mesclar(dto.titulo, livro.titulo);
    livro.autor := Mesclar(dto.autor, livro.autor);
    livro.editora := if dto.editora.Some? then dto.editora else livro.editora;
    livro.anoPublicacao := if dto.anoPublicacao.Some? then dto.anoPublicacao else livro.anoPublicacao;
    livro.quantidadeTotal := Mesclar(dto.quantidadeTotal, livro.quantidadeTotal);
    livro.valorMultaDiaria := if dto.valorMultaDiaria.Some? then dto.valorMultaDiaria else livro.valorMultaDiaria;
    livro.categoria := if dto.categoriaId.Some? then dto.categoriaId else livro.categoria;
  }

  /** A new member from a request: active, with the borrowing limit of the member's type. */
  method UsuarioToEntity(dto: UsuarioRequest) returns (usuario: Usuario)
    requires dto.Completo()
    ensures fresh(usuario)
    ensures usuario.nome == dto.nome.value && usuario.email == dto.email.value && usuario.cpf == dto.cpf.value
    ensures usuario.telefone == dto.telefone && usuario.tipo == dto.tipo.value
    ensures usuario.ativo
    ensures usuario.limiteEmprestimos == dto.tipo.value.LimiteEmprestimos() && usuario.limiteEmprestimos > 0
  {
    usuario := new Usuario(dto.nome.value, dto.email.value, dto.cpf.value, dto.telefone,
                           dto.tipo.value, Some(true), Some(dto.tipo.value.LimiteEmprestimos()));
  }

  /**
   * Writes a member request into an existing member. Present values replace the current ones;
   * the borrowing limit is always recomputed from the request's type (the mapping expression
   * dereferences the type, so the type must be present).
   */
  method UsuarioUpdateEntityFromDTO(dto: UsuarioRequest, usuario: Usuario)
    requires dto.tipo.Some?
    modifies usuario`nome, usuario`email, usuario`cpf, usuario`telefone, usuario`tipo, usuario`limiteEmprestimos
    ensures usuario.nome == Mesclar(dto.nome, old(usuario.nome))
    ensures usuario.email == Mesclar(dto.email, old(usuario.email))
    ensures usuario.cpf == Mesclar(dto.cpf, old(usuario.cpf))
    ensures usuario.telefone == (if dto.telefone.Some? then dto.telefone else old(usuario.telefone))
    ensures usuario.tipo == dto.tipo.value
    ensures usuario.limiteEmprestimos == usuario.tipo.LimiteEmprestimos()
    ensures usuario.ativo == old(usuario.ativo)
  {
    usuario.nome := Mesclar(dto.nome, usuario.nome);
    usuario.email := Mesclar(dto.email, usuario.email);
    usuario.cpf := Mesclar(dto.cpf, usuario.cpf);
    usuario.telefone := if dto.telefone.Some? then dto.telefone else usuario.telefone;
    usuario.tipo := dto.tipo.value;
    usuario.limiteEmprestimos := dto.tipo.value.LimiteEmprestimos();
  }

  /** The member as the API returns it. */
  datatype UsuarioResponse = UsuarioResponse(
    nome: string,
    email: string,
    cpf: string,
    telefone: Option<string>,
    tipo: TipoUsuario,
    ativo: bool,
    limiteEmprestimos: int,
    emprestimoAtivos: nat)

  /**
   * The response for a member whose loan list is `emprestimos`: its open-loan count is the
   * entity's, so a client can tell from it whether the member may borrow.
   */
  function UsuarioToResponse(usuario: Usuario, emprestimos: seq<Registro>): (r: UsuarioResponse)
    reads usuario
    ensures r.emprestimoAtivos == usuario.EmprestimosAtivos(emprestimos) <= |emprestimos|
    ensures (r.ativo && r.emprestimoAtivos < r.limiteEmprestimos) <==> usuario.PodeEmprestar(emprestimos)
  {
    UsuarioResponse(usuario.nome, usuario.email, usuario.cpf, usuario.telefone, usuario.tipo,
                    usuario.ativo, usuario.limiteEmprestimos, usuario.EmprestimosAtivos(emprestimos))
  }
}
