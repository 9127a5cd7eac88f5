/**
 * The book service: registration under a unique ISBN, editing (which moves the available
 * copies with the total), soft deletion and the availability query. Each call is one
 * transaction: a failed call leaves the database as it was.
 */
module LivroService {
  import opened Common
  import opened Entity
  import opened Requests
  import opened Mappers
  import opened Persistence

  /** `existsByIsbn`: some stored book, active or not, has this ISBN. */
  function ExistsByIsbn(db: Biblioteca, isbn: string): (b: bool)
    reads db`livros, db.livros`isbn
    ensures b <==> exists i :: 0 <= i < |db.livros| && db.livros[i].isbn == isbn
  {
    var isbns := Isbns(db.livros);
    assert forall i :: 0 <= i < |db.livros| ==> isbns[i] == db.livros[i].isbn;
    isbn in isbns
  }

  /** Under the invariant, an ISBN that differs from book `k`'s and exists is held by another book, and conversely. */
  lemma IsbnDeOutroLivro(db: Biblioteca, k: int, isbn: string)
    requires db.Valid() && 0 <= k < |db.livros|
    ensures (isbn != db.livros[k].isbn && ExistsByIsbn(db, isbn)) <==>
            exists j :: 0 <= j < |db.livros| && j != k && db.livros[j].isbn == isbn
  {
    if exists j :: 0 <= j < |db.livros| && j != k && db.livros[j].isbn == isbn {
      var j :| 0 <= j < |db.livros| && j != k && db.livros[j].isbn == isbn;
      assert db.livros[j].isbn != db.livros[k].isbn;
    }
  }

  /**
   * Registers a book (`criar`): a duplicate ISBN is refused first, then a category that does
   * not exist; otherwise the book is stored with every copy available and marked active.
   */
  method Criar(db: Biblioteca, dto: LivroRequest) returns (r: Result<Livro>)
    requires dto.Valido()
    requires db.Valid()
    modifies db`livros
    ensures db.Valid()
    ensures old(ExistsByIsbn(db, dto.isbn.value)) ==> r == Err(Business(DuplicateIsbn))
    ensures !old(ExistsByIsbn(db, dto.isbn.value)) && dto.categoriaId.Some? && dto.categoriaId.value !in db.categorias ==>
              r == Err(NotFound(CategoriaResource))
    ensures r.Ok? <==> !old(ExistsByIsbn(db, dto.isbn.value)) &&
                       (dto.categoriaId.Some? ==> dto.categoriaId.value in db.categorias)
    ensures r.Err? ==> db.livros == old(db.livros)
    ensures r.Ok? ==>
              && fresh(r.value) && db.livros == old(db.livros) + [r.value]
              && r.value.Ficha() == DadosLivro(dto.isbn.value, dto.titulo.value, dto.autor.value, dto.editora,
                                               dto.anoPublicacao, dto.quantidadeTotal.value, dto.quantidadeTotal.value,
                                               dto.valorMultaDiaria, dto.categoriaId, true)
  {
    if ExistsByIsbn(db, dto.isbn.value) {
      r := Err(Business(DuplicateIsbn));
    } else {
      var livro := LivroToEntity(dto);
      if dto.categoriaId.Some? && dto.categoriaId.value !in db.categorias {
        r := Err(NotFound(CategoriaResource));
      } else {
        db.livros := db.livros + [livro];
        db.ValidAposNovoLivro(livro);
        r := Ok(livro);
      }
    }
  }

  /** The book with id `id` (`buscarPorId`); an unknown id is NotFound. */
  function BuscarPorId(db: Biblioteca, id: int): (r: Result<DadosLivro>)
    reads db`livros, db.livros
    ensures r.Err? <==> !(1 <= id <= |db.livros|)
    ensures r.Err? ==> r.error == NotFound(LivroResource)
    ensures r.Ok? ==> r.value == db.livros[id - 1].Ficha()
  {
    match db.LivroPorId(id)
    case None => Err(NotFound(LivroResource))
    case Some(l) => Ok(l.Ficha())
  }

  /**
   * The available copies after the total goes from `antigo` to `novo`: moved by the same
   * amount, so the number of copies missing from the shelf stays the same.
   */
  function Ajustado(disponivel: int, antigo: int, novo: int): (d: int)
    ensures novo - d == antigo - disponivel
  {
    if antigo != novo then disponivel + (novo - antigo) else disponivel
  }

  /**
   * Under the invariant, the adjusted count of book `k` is its new total minus its copies out
   * on loan; so it is negative exactly when the new total is below the copies on loan.
   */
  lemma AjusteCobreCirculacao(db: Biblioteca, k: int, novo: int)
    requires db.Valid() && 0 <= k < |db.livros|
    ensures var l := db.livros[k];
            var d := Ajustado(l.quantidadeDisponivel, l.quantidadeTotal, novo);
            && d == novo - EmCirculacao(db.Registros(), l)
            && (d >= 0 <==> novo >= EmCirculacao(db.Registros(), l))
  {
    assert db.EstoqueConfere();
  }

  /**
   * Edits book `id` (`atualizar`). The book is looked up first; then an ISBN changed to one
   * that exists is refused; then, when the total changes, the available copies move by the
   * same amount and a negative result is refused; then a category that does not exist is
   * refused. Otherwise the request's present values are written into the book.
   */
  method Atualizar(db: Biblioteca, id: int, dto: LivroRequest) returns (r: Result<Livro>)
    requires dto.Valido()
    requires db.Valid()
    modifies db.LivroAlvo(id)`isbn, db.LivroAlvo(id)`titulo, db.LivroAlvo(id)`autor, db.LivroAlvo(id)`editora,
             db.LivroAlvo(id)`anoPublicacao, db.LivroAlvo(id)`quantidadeTotal, db.LivroAlvo(id)`quantidadeDisponivel,
             db.LivroAlvo(id)`valorMultaDiaria, db.LivroAlvo(id)`categoria
    ensures db.Valid()
    ensures !(1 <= id <= |db.livros|) ==> r == Err(NotFound(LivroResource))
    ensures 1 <= id <= |db.livros| ==>
              var f := old(db.livros[id - 1].Ficha());
              var isbnOcupado := dto.isbn.value != f.isbn && old(ExistsByIsbn(db, dto.isbn.value));
              var disponivel := Ajustado(f.quantidadeDisponivel, f.quantidadeTotal, dto.quantidadeTotal.value);
              var negativo := f.quantidadeTotal != dto.quantidadeTotal.value && disponivel < 0;
              var semCategoria := dto.categoriaId.Some? && dto.categoriaId.value !in db.categorias;
              && (isbnOcupado ==> r == Err(Business(DuplicateIsbn)))
              && (!isbnOcupado && negativo ==> r == Err(Business(NegativeAvailable)))
              && (!isbnOcupado && !negativo && semCategoria ==> r == Err(NotFound(CategoriaResource)))
              && (r.Ok? <==> !isbnOcupado && !negativo && !semCategoria)
              && (r.Err? ==> db.livros[id - 1].Ficha() == f)
              && (r.Ok? ==>
                    && r.value == db.livros[id - 1]
                    && r.value.Ficha() == f.(isbn := dto.isbn.value, titulo := dto.titulo.value, autor := dto.autor.value,
                                             editora := if dto.editora.Some? then dto.editora else f.editora,
                                             anoPublicacao := if dto.anoPublicacao.Some? then dto.anoPublicacao else f.anoPublicacao,
                                             quantidadeTotal := dto.quantidadeTotal.value,
                                             quantidadeDisponivel := disponivel,
                                             valorMultaDiaria := if dto.valorMultaDiaria.Some? then dto.valorMultaDiaria else f.valorMultaDiaria,
                                             categoria := if dto.categoriaId.Some? then dto.categoriaId else f.categoria))
  {
    if !(1 <= id <= |db.livros|) {
      r := Err(NotFound(LivroResource));
    } else {
      var livro := db.livros[id - 1];
      var novoTotal := dto.quantidadeTotal.value;
      var disponivel := Ajustado(livro.quantidadeDisponivel, livro.quantidadeTotal, novoTotal);
      if livro.isbn != dto.isbn.value && ExistsByIsbn(db, dto.isbn.value) {
        r := Err(Business(DuplicateIsbn));
      } else if livro.quantidadeTotal != novoTotal && disponivel < 0 {
        r := Err(Business(NegativeAvailable));
      } else if dto.categoriaId.Some? && dto.categoriaId.value !in db.categorias {
        r := Err(NotFound(CategoriaResource));
      } else {
        assert db.Identidades();
        LivroUpdateEntityFromDTO(dto, livro);
        livro.quantidadeDisponivel := disponivel;
        db.ValidAposEditarLivro(id - 1);
        r := Ok(livro);
      }
    }
  }

  /** Deactivates book `id` (`deletar`): only its `ativo` flag changes; an unknown id is NotFound. */
  method Deletar(db: Biblioteca, id: int) returns (r: Outcome)
    requires db.Valid()
    modifies db.LivroAlvo(id)`ativo
    ensures db.Valid()
    ensures r == Pass <==> 1 <= id <= |db.livros|
    ensures r != Pass ==> r == Fail(NotFound(LivroResource))
    ensures r == Pass ==> db.livros[id - 1].Ficha() == old(db.livros[id - 1].Ficha()).(ativo := false)
  {
    if !(1 <= id <= |db.livros|) {
      r := Fail(NotFound(LivroResource));
    } else {
      db.livros[id - 1].ativo := false;
      r := Pass;
    }
  }

  /** Whether book `id` has a copy on the shelf (`isDisponivel`); the `ativo` flag plays no part. */
  function IsDisponivel(db: Biblioteca, id: int): (r: Result<bool>)
    reads db`livros, db.livros`quantidadeDisponivel
    ensures r.Err? <==> !(1 <= id <= |db.livros|)
    ensures r.Err? ==> r.error == NotFound(LivroResource)
  {
    if 1 <= id <= |db.livros| then Ok(db.livros[id - 1].quantidadeDisponivel > 0) else Err(NotFound(LivroResource))
  }

  /** Under the invariant, a book is available exactly when fewer of its copies are on loan than it owns. */
  lemma DisponivelSeSobraExemplar(db: Biblioteca, id: int)
    requires db.Valid() && 1 <= id <= |db.livros|
    ensures IsDisponivel(db, id) == Ok(true) <==> EmCirculacao(db.Registros(), db.livros[id - 1]) < db.livros[id - 1].quantidadeTotal
    ensures IsDisponivel(db, id) == Ok(false) <==> EmCirculacao(db.Registros(), db.livros[id - 1]) == db.livros[id - 1].quantidadeTotal
  {
    assert db.EstoqueConfere();
  }
}
