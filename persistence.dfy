/**
 * The database as the services see it. Each table is a sequence of entity objects in id
 * order: ids are generated 1, 2, 3, ... and nothing is ever hard-deleted, so the entity
 * with id `n` is element `n - 1`. There is one object per row, as in a persistence
 * context, so two loans of the same member refer to the same `Usuario` object.
 */
module Persistence {
  import opened Common
  import opened Entity

  /** The row is a not-yet-returned loan of book `b`. */
  predicate AbertoDoLivro(e: Registro, b: Livro)
  {
    e.livro == b && EmAberto(e)
  }

  /** How many copies of `b` are out on loan according to the loan table. */
  function EmCirculacao(rs: seq<Registro>, b: Livro): (n: nat)
    ensures n <= |rs|
  {
    if rs == [] then 0
    else EmCirculacao(rs[..|rs| - 1], b) + (if AbertoDoLivro(rs[|rs| - 1], b) then 1 else 0)
  }

  /** No copy of `b` is in circulation exactly when no row is an open loan of `b`. */
  lemma {:induction false} SemCirculacao(rs: seq<Registro>, b: Livro)
    ensures EmCirculacao(rs, b) == 0 <==> forall i :: 0 <= i < |rs| ==> !AbertoDoLivro(rs[i], b)
  {
    if rs != [] {
      var init := rs[..|rs| - 1];
      SemCirculacao(init, b);
      assert forall i :: 0 <= i < |init| ==> init[i] == rs[i];
    }
  }

  /** Appending a loan row adds one copy in circulation for its book when it is open, and none otherwise. */
  lemma EmCirculacaoAppend(rs: seq<Registro>, x: Registro, b: Livro)
    ensures EmCirculacao(rs + [x], b) == EmCirculacao(rs, b) + (if AbertoDoLivro(x, b) then 1 else 0)
  {
    assert (rs + [x])[..|rs|] == rs;
  }

  /** Replacing one loan row changes the circulation of `b` by what the old and the new row contribute. */
  lemma {:induction false} EmCirculacaoUpdate(rs: seq<Registro>, k: int, y: Registro, b: Livro)
    requires 0 <= k < |rs|
    ensures EmCirculacao(rs[k := y], b)
            == EmCirculacao(rs, b) - (if AbertoDoLivro(rs[k], b) then 1 else 0)
                                    + (if AbertoDoLivro(y, b) then 1 else 0)
  {
    var n := |rs|;
    if k == n - 1 {
      assert rs[k := y][..n - 1] == rs[..n - 1];
    } else {
      assert rs[k := y][..n - 1] == rs[..n - 1][k := y];
      EmCirculacaoUpdate(rs[..n - 1], k, y, b);
    }
  }

  /** The ISBNs of books `ls`, in order. */
  function Isbns(ls: seq<Livro>): (r: seq<string>)
    reads ls`isbn
    ensures |r| == |ls| && forall i :: 0 <= i < |ls| ==> r[i] == ls[i].isbn
  {
    if ls == [] then [] else Isbns(ls[..|ls| - 1]) + [ls[|ls| - 1].isbn]
  }

  /** The e-mail addresses of members `us`, in order. */
  function Emails(us: seq<Usuario>): (r: seq<string>)
    reads us`email
    ensures |r| == |us| && forall i :: 0 <= i < |us| ==> r[i] == us[i].email
  {
    if us == [] then [] else Emails(us[..|us| - 1]) + [us[|us| - 1].email]
  }

  /** The CPF numbers of members `us`, in order. */
  function Cpfs(us: seq<Usuario>): (r: seq<string>)
    reads us`cpf
    ensures |r| == |us| && forall i :: 0 <= i < |us| ==> r[i] == us[i].cpf
  {
    if us == [] then [] else Cpfs(us[..|us| - 1]) + [us[|us| - 1].cpf]
  }

  /** The book, member and loan tables, and the category names by category id. */
  class Biblioteca {
    var livros: seq<Livro>
    var usuarios: seq<Usuario>
    var emprestimos: seq<Emprestimo>
    var categorias: map<int, string>

    /** An empty database over a fixed set of categories. */
    constructor (categorias: map<int, string>)
      ensures livros == [] && usuarios == [] && emprestimos == [] && this.categorias == categorias
      ensures Valid()
    {
      livros := [];
      usuarios := [];
      emprestimos := [];
      this.categorias := categorias;
    }

    /** The loan table's rows, in id order. */
    function Registros(): (rs: seq<Registro>)
      reads this`emprestimos, emprestimos
      ensures |rs| == |emprestimos|
      ensures forall i :: 0 <= i < |rs| ==> rs[i] == emprestimos[i].Estado()
    {
      var es := emprestimos;
      seq(|es|, i reads es requires 0 <= i < |es| => es[i].Estado())
    }

    /** One object per row, and ISBN, e-mail and CPF each identify at most one row. */
    ghost predicate Identidades()
      reads this`livros, this`usuarios, livros`isbn, usuarios`email, usuarios`cpf
    {
      && (forall i, j :: 0 <= i < |livros| && 0 <= j < |livros| && i != j ==>
            livros[i] != livros[j] && livros[i].isbn != livros[j].isbn)
      && (forall i, j :: 0 <= i < |usuarios| && 0 <= j < |usuarios| && i != j ==>
            usuarios[i] != usuarios[j] && usuarios[i].email != usuarios[j].email && usuarios[i].cpf != usuarios[j].cpf)
    }

    /** One object per loan row, and every loan refers to a stored book and member. */
    ghost predicate Referencias()
      reads this`livros, this`usuarios, this`emprestimos
    {
      && (forall i, j :: 0 <= i < |emprestimos| && 0 <= j < |emprestimos| && i != j ==> emprestimos[i] != emprestimos[j])
      && (forall i :: 0 <= i < |emprestimos| ==> emprestimos[i].livro in livros && emprestimos[i].usuario in usuarios)
    }

    /** A loan has a return date exactly when it is `Devolvido`, and no loan carries a fine. */
    ghost predicate RegistrosConsistentes()
      reads this`emprestimos, emprestimos
    {
      forall i :: 0 <= i < |emprestimos| ==> emprestimos[i].Estado().Consistente() && emprestimos[i].valorMulta.None?
    }

    /** Every book's missing copies are exactly its open loans. */
    ghost predicate EstoqueConfere()
      reads this`livros, this`emprestimos, livros`quantidadeTotal, livros`quantidadeDisponivel, emprestimos
    {
      forall i :: 0 <= i < |livros| ==>
        0 <= livros[i].quantidadeDisponivel &&
        livros[i].quantidadeTotal - livros[i].quantidadeDisponivel == EmCirculacao(Registros(), livros[i])
    }

    /** Every book's category exists. */
    ghost predicate CategoriasExistem()
      reads this`livros, this`categorias, livros`categoria
    {
      forall i :: 0 <= i < |livros| && livros[i].categoria.Some? ==> livros[i].categoria.value in categorias
    }

    /** The database invariant kept by every service operation. */
    ghost predicate Valid()
      reads this, livros`isbn, livros`quantidadeTotal, livros`quantidadeDisponivel, livros`categoria,
            usuarios`email, usuarios`cpf, emprestimos
    {
      Identidades() && Referencias() && RegistrosConsistentes() && EstoqueConfere() && CategoriasExistem()
    }

    /** In a valid database every book's counter is within bounds. */
    lemma EstoquesValidos()
      requires Valid()
      ensures forall i :: 0 <= i < |livros| ==> livros[i].EstoqueValido()
    {
    }

    /** An open loan keeps a copy of its book away: that book has fewer copies available than it owns. */
    lemma AbertoOcupaExemplar(k: int)
      requires Valid() && 0 <= k < |emprestimos| && EmAberto(emprestimos[k].Estado())
      ensures emprestimos[k].livro.quantidadeDisponivel < emprestimos[k].livro.quantidadeTotal
    {
      var rs := Registros();
      var b := emprestimos[k].livro;
      var i :| 0 <= i < |livros| && livros[i] == b;
      assert AbertoDoLivro(rs[k], b);
      SemCirculacao(rs, b);
    }

    /**
     * Replacing the state of loan `k` keeps the invariant when the new row is consistent, does
     * not reopen the loan, and its book's counter moves by the change in the loan's openness;
     * no other row changes.
     */
    twostate lemma ValidAposSubstituir(k: int)
      requires old(Valid())
      requires livros == old(livros) && usuarios == old(usuarios) && emprestimos == old(emprestimos)
      requires categorias == old(categorias)
      requires 0 <= k < |emprestimos|
      requires forall i :: 0 <= i < |usuarios| ==>
                 usuarios[i].email == old(usuarios[i].email) && usuarios[i].cpf == old(usuarios[i].cpf)
      requires forall i :: 0 <= i < |emprestimos| && i != k ==> emprestimos[i].Estado() == old(emprestimos[i].Estado())
      requires emprestimos[k].Estado().Consistente() && emprestimos[k].valorMulta.None?
      requires EmAberto(emprestimos[k].Estado()) ==> EmAberto(old(emprestimos[k].Estado()))
      requires forall i :: 0 <= i < |livros| ==>
                 && livros[i].isbn == old(livros[i].isbn) && livros[i].categoria == old(livros[i].categoria)
                 && livros[i].quantidadeTotal == old(livros[i].quantidadeTotal)
                 && livros[i].quantidadeDisponivel == old(livros[i].quantidadeDisponivel) +
                      (if livros[i] == emprestimos[k].livro && EmAberto(old(emprestimos[k].Estado()))
                          && !EmAberto(emprestimos[k].Estado()) then 1 else 0)
      ensures Valid()
      ensures Registros() == old(Registros())[k := emprestimos[k].Estado()]
    {
      var rs := old(Registros());
      var y := emprestimos[k].Estado();
      assert Registros() == rs[k := y];
      assert RegistrosConsistentes() by {
        forall i | 0 <= i < |emprestimos| && i != k
          ensures emprestimos[i].Estado().Consistente() && emprestimos[i].valorMulta.None?
        {
          assert old(emprestimos[i].Estado().Consistente() && emprestimos[i].valorMulta.None?);
        }
      }
      assert EstoqueConfere() by {
        forall i | 0 <= i < |livros|
          ensures 0 <= livros[i].quantidadeDisponivel
          ensures livros[i].quantidadeTotal - livros[i].quantidadeDisponivel == EmCirculacao(Registros(), livros[i])
        {
          EmCirculacaoUpdate(rs, k, y, livros[i]);
          assert old(livros[i].quantidadeTotal - livros[i].quantidadeDisponivel) == EmCirculacao(rs, livros[i]);
        }
      }
    }

    /**
     * Appending a new loan keeps the invariant when the loan refers to a stored book and member,
     * is consistent, and its book's counter drops by one if the loan is open; no other row changes.
     */
    twostate lemma ValidAposAcrescentar(new e: Emprestimo)
      requires old(Valid())
      requires livros == old(livros) && usuarios == old(usuarios) && categorias == old(categorias)
      requires emprestimos == old(emprestimos) + [e] && e !in old(emprestimos)
      requires e.livro in livros && e.usuario in usuarios
      requires e.Estado().Consistente() && e.valorMulta.None?
      requires unchanged(usuarios) && unchanged(old(emprestimos))
      requires forall i :: 0 <= i < |livros| ==>
                 && livros[i].isbn == old(livros[i].isbn) && livros[i].categoria == old(livros[i].categoria)
                 && livros[i].quantidadeTotal == old(livros[i].quantidadeTotal)
                 && livros[i].quantidadeDisponivel == old(livros[i].quantidadeDisponivel) -
                      (if livros[i] == e.livro && EmAberto(e.Estado()) then 1 else 0)
      requires e.livro.quantidadeDisponivel >= 0
      ensures Valid()
      ensures Registros() == old(Registros()) + [e.Estado()]
    {
      var rs := old(Registros());
      var y := e.Estado();
      assert Registros() == rs + [y];
      assert Identidades() by {
        assert old(Identidades());
        forall i, j | 0 <= i < |livros| && 0 <= j < |livros| && i != j ensures livros[i].isbn != livros[j].isbn {
          assert old(livros[i].isbn != livros[j].isbn);
        }
        forall i, j | 0 <= i < |usuarios| && 0 <= j < |usuarios| && i != j
          ensures usuarios[i].email != usuarios[j].email && usuarios[i].cpf != usuarios[j].cpf
        {
          assert old(usuarios[i].email != usuarios[j].email && usuarios[i].cpf != usuarios[j].cpf);
        }
      }
      assert CategoriasExistem() by {
        assert old(CategoriasExistem());
      }
      assert Referencias() by {
        forall i, j | 0 <= i < |emprestimos| && 0 <= j < |emprestimos| && i != j
          ensures emprestimos[i] != emprestimos[j]
        {
          if i < |rs| && j < |rs| {
            assert old(emprestimos[i] != emprestimos[j]);
          }
        }
      }
      assert RegistrosConsistentes() by {
        forall i | 0 <= i < |old(emprestimos)|
          ensures emprestimos[i].Estado().Consistente() && emprestimos[i].valorMulta.None?
        {
          assert old(emprestimos[i].Estado().Consistente() && emprestimos[i].valorMulta.None?);
        }
      }
      assert EstoqueConfere() by {
        forall i | 0 <= i < |livros|
          ensures 0 <= livros[i].quantidadeDisponivel
          ensures livros[i].quantidadeTotal - livros[i].quantidadeDisponivel == EmCirculacao(Registros(), livros[i])
        {
          EmCirculacaoAppend(rs, y, livros[i]);
          assert old(livros[i].quantidadeTotal - livros[i].quantidadeDisponivel) == EmCirculacao(rs, livros[i]);
        }
      }
    }

    /**
     * Adding a new book keeps the invariant when its ISBN is new, every copy is on the shelf and
     * its category exists; nothing else changes.
     */
    twostate lemma ValidAposNovoLivro(new l: Livro)
      requires old(Valid())
      requires usuarios == old(usuarios) && emprestimos == old(emprestimos) && categorias == old(categorias)
      requires livros == old(livros) + [l] && l !in old(livros)
      requires forall i :: 0 <= i < |old(livros)| ==>
                 && livros[i].isbn == old(livros[i].isbn) && livros[i].categoria == old(livros[i].categoria)
                 && livros[i].quantidadeTotal == old(livros[i].quantidadeTotal)
                 && livros[i].quantidadeDisponivel == old(livros[i].quantidadeDisponivel)
                 && livros[i].isbn != l.isbn
      requires forall i :: 0 <= i < |usuarios| ==>
                 usuarios[i].email == old(usuarios[i].email) && usuarios[i].cpf == old(usuarios[i].cpf)
      requires forall i :: 0 <= i < |emprestimos| ==> emprestimos[i].Estado() == old(emprestimos[i].Estado())
      requires 0 <= l.quantidadeDisponivel == l.quantidadeTotal
      requires l.categoria.Some? ==> l.categoria.value in categorias
      ensures Valid()
    {
      var rs := old(Registros());
      assert Registros() == rs;
      assert Identidades() by {
        assert old(Identidades());
        forall i, j | 0 <= i < |livros| && 0 <= j < |livros| && i != j
          ensures livros[i] != livros[j] && livros[i].isbn != livros[j].isbn
        {
          if i < |old(livros)| && j < |old(livros)| {
            assert old(livros[i] != livros[j] && livros[i].isbn != livros[j].isbn);
          }
        }
        forall i, j | 0 <= i < |usuarios| && 0 <= j < |usuarios| && i != j
          ensures usuarios[i].email != usuarios[j].email && usuarios[i].cpf != usuarios[j].cpf
        {
          assert old(usuarios[i].email != usuarios[j].email && usuarios[i].cpf != usuarios[j].cpf);
        }
      }
      assert RegistrosConsistentes() by {
        forall i | 0 <= i < |emprestimos|
          ensures emprestimos[i].Estado().Consistente() && emprestimos[i].valorMulta.None?
        {
          assert old(emprestimos[i].Estado().Consistente() && emprestimos[i].valorMulta.None?);
        }
      }
      assert EstoqueConfere() by {
        forall i | 0 <= i < |livros|
          ensures 0 <= livros[i].quantidadeDisponivel
          ensures livros[i].quantidadeTotal - livros[i].quantidadeDisponivel == EmCirculacao(Registros(), livros[i])
        {
          if i < |old(livros)| {
            assert old(livros[i].quantidadeTotal - livros[i].quantidadeDisponivel) == EmCirculacao(rs, livros[i]);
          } else {
            forall j | 0 <= j < |rs| ensures !AbertoDoLivro(rs[j], l) {
              assert rs[j].livro in old(livros);
            }
            SemCirculacao(rs, l);
          }
        }
      }
      assert CategoriasExistem() by {
        assert old(CategoriasExistem());
      }
    }

    /**
     * Editing book `k` keeps the invariant when its ISBN stays unique, its total and its
     * available copies move together, no counter goes negative and its category exists;
     * no other book, member or loan changes.
     */
    twostate lemma ValidAposEditarLivro(k: int)
      requires old(Valid())
      requires livros == old(livros) && usuarios == old(usuarios) && emprestimos == old(emprestimos)
      requires categorias == old(categorias)
      requires 0 <= k < |livros|
      requires forall i :: 0 <= i < |livros| && i != k ==>
                 && livros[i].isbn == old(livros[i].isbn) && livros[i].categoria == old(livros[i].categoria)
                 && livros[i].quantidadeTotal == old(livros[i].quantidadeTotal)
                 && livros[i].quantidadeDisponivel == old(livros[i].quantidadeDisponivel)
                 && livros[i].isbn != livros[k].isbn
      requires forall i :: 0 <= i < |usuarios| ==>
                 usuarios[i].email == old(usuarios[i].email) && usuarios[i].cpf == old(usuarios[i].cpf)
      requires forall i :: 0 <= i < |emprestimos| ==> emprestimos[i].Estado() == old(emprestimos[i].Estado())
      requires livros[k].quantidadeTotal - livros[k].quantidadeDisponivel
               == old(livros[k].quantidadeTotal - livros[k].quantidadeDisponivel)
      requires livros[k].quantidadeDisponivel >= 0
      requires livros[k].categoria.Some? ==> livros[k].categoria.value in categorias
      ensures Valid()
    {
      var rs := old(Registros());
      assert Registros() == rs;
      assert Identidades() by {
        assert old(Identidades());
        forall i, j | 0 <= i < |usuarios| && 0 <= j < |usuarios| && i != j
          ensures usuarios[i].email != usuarios[j].email && usuarios[i].cpf != usuarios[j].cpf
        {
          assert old(usuarios[i].email != usuarios[j].email && usuarios[i].cpf != usuarios[j].cpf);
        }
        forall i, j | 0 <= i < |livros| && 0 <= j < |livros| && i != j && i != k && j != k
          ensures livros[i].isbn != livros[j].isbn
        {
          assert old(livros[i].isbn != livros[j].isbn);
        }
      }
      assert RegistrosConsistentes() by {
        forall i | 0 <= i < |emprestimos|
          ensures emprestimos[i].Estado().Consistente() && emprestimos[i].valorMulta.None?
        {
          assert old(emprestimos[i].Estado().Consistente() && emprestimos[i].valorMulta.None?);
        }
      }
      assert EstoqueConfere() by {
        forall i | 0 <= i < |livros|
          ensures 0 <= livros[i].quantidadeDisponivel
          ensures livros[i].quantidadeTotal - livros[i].quantidadeDisponivel == EmCirculacao(Registros(), livros[i])
        {
          assert old(livros[i].quantidadeTotal - livros[i].quantidadeDisponivel) == EmCirculacao(rs, livros[i]);
        }
      }
      assert CategoriasExistem() by {
        assert old(CategoriasExistem());
      }
    }

    /**
     * Adding a new member keeps the invariant when neither its e-mail nor its CPF is taken;
     * nothing else changes.
     */
    twostate lemma ValidAposNovoUsuario(new u: Usuario)
      requires old(Valid())
      requires livros == old(livros) && emprestimos == old(emprestimos) && categorias == old(categorias)
      requires usuarios == old(usuarios) + [u] && u !in old(usuarios)
      requires forall i :: 0 <= i < |old(usuarios)| ==>
                 && usuarios[i].email == old(usuarios[i].email) && usuarios[i].cpf == old(usuarios[i].cpf)
                 && usuarios[i].email != u.email && usuarios[i].cpf != u.cpf
      requires forall i :: 0 <= i < |livros| ==>
                 && livros[i].isbn == old(livros[i].isbn) && livros[i].categoria == old(livros[i].categoria)
                 && livros[i].quantidadeTotal == old(livros[i].quantidadeTotal)
                 && livros[i].quantidadeDisponivel == old(livros[i].quantidadeDisponivel)
      requires forall i :: 0 <= i < |emprestimos| ==> emprestimos[i].Estado() == old(emprestimos[i].Estado())
      ensures Valid()
    {
      var rs := old(Registros());
      assert Registros() == rs;
      assert Identidades() by {
        assert old(Identidades());
        forall i, j | 0 <= i < |livros| && 0 <= j < |livros| && i != j ensures livros[i].isbn != livros[j].isbn {
          assert old(livros[i].isbn != livros[j].isbn);
        }
        forall i, j | 0 <= i < |usuarios| && 0 <= j < |usuarios| && i != j
          ensures usuarios[i] != usuarios[j] && usuarios[i].email != usuarios[j].email && usuarios[i].cpf != usuarios[j].cpf
        {
          if i < |old(usuarios)| && j < |old(usuarios)| {
            assert old(usuarios[i] != usuarios[j] && usuarios[i].email != usuarios[j].email && usuarios[i].cpf != usuarios[j].cpf);
          }
        }
      }
      assert RegistrosConsistentes() by {
        forall i | 0 <= i < |emprestimos|
          ensures emprestimos[i].Estado().Consistente() && emprestimos[i].valorMulta.None?
        {
          assert old(emprestimos[i].Estado().Consistente() && emprestimos[i].valorMulta.None?);
        }
      }
      assert EstoqueConfere() by {
        forall i | 0 <= i < |livros|
          ensures 0 <= livros[i].quantidadeDisponivel
          ensures livros[i].quantidadeTotal - livros[i].quantidadeDisponivel == EmCirculacao(Registros(), livros[i])
        {
          assert old(livros[i].quantidadeTotal - livros[i].quantidadeDisponivel) == EmCirculacao(rs, livros[i]);
        }
      }
      assert CategoriasExistem() by {
        assert old(CategoriasExistem());
      }
    }

    /**
     * Editing member `k` keeps the invariant when the member's e-mail and CPF stay unique;
     * no other member, book or loan changes.
     */
    twostate lemma ValidAposEditarUsuario(k: int)
      requires old(Valid())
      requires livros == old(livros) && usuarios == old(usuarios) && emprestimos == old(emprestimos)
      requires categorias == old(categorias)
      requires 0 <= k < |usuarios|
      requires forall i :: 0 <= i < |usuarios| && i != k ==>
                 && usuarios[i].email == old(usuarios[i].email) && usuarios[i].cpf == old(usuarios[i].cpf)
                 && usuarios[i].email != usuarios[k].email && usuarios[i].cpf != usuarios[k].cpf
      requires forall i :: 0 <= i < |livros| ==>
                 && livros[i].isbn == old(livros[i].isbn) && livros[i].categoria == old(livros[i].categoria)
                 && livros[i].quantidadeTotal == old(livros[i].quantidadeTotal)
                 && livros[i].quantidadeDisponivel == old(livros[i].quantidadeDisponivel)
      requires forall i :: 0 <= i < |emprestimos| ==> emprestimos[i].Estado() == old(emprestimos[i].Estado())
      ensures Valid()
    {
      var rs := old(Registros());
      assert Registros() == rs;
      assert Identidades() by {
        assert old(Identidades());
        forall i, j | 0 <= i < |livros| && 0 <= j < |livros| && i != j ensures livros[i].isbn != livros[j].isbn {
          assert old(livros[i].isbn != livros[j].isbn);
        }
        forall i, j | 0 <= i < |usuarios| && 0 <= j < |usuarios| && i != j && i != k && j != k
          ensures usuarios[i].email != usuarios[j].email && usuarios[i].cpf != usuarios[j].cpf
        {
          assert old(usuarios[i].email != usuarios[j].email && usuarios[i].cpf != usuarios[j].cpf);
        }
      }
      assert RegistrosConsistentes() by {
        forall i | 0 <= i < |emprestimos|
          ensures emprestimos[i].Estado().Consistente() && emprestimos[i].valorMulta.None?
        {
          assert old(emprestimos[i].Estado().Consistente() && emprestimos[i].valorMulta.None?);
        }
      }
      assert EstoqueConfere() by {
        forall i | 0 <= i < |livros|
          ensures 0 <= livros[i].quantidadeDisponivel
          ensures livros[i].quantidadeTotal - livros[i].quantidadeDisponivel == EmCirculacao(Registros(), livros[i])
        {
          assert old(livros[i].quantidadeTotal - livros[i].quantidadeDisponivel) == EmCirculacao(rs, livros[i]);
        }
      }
      assert CategoriasExistem() by {
        assert old(CategoriasExistem());
      }
    }

    /** The book with id `id`, as a set: empty when there is no such book. */
    function LivroAlvo(id: int): set<Livro>
      reads this`livros
    {
      if 1 <= id <= |livros| then {livros[id - 1]} else {}
    }

    /** The member with id `id`, as a set: empty when there is no such member. */
    function UsuarioAlvo(id: int): set<Usuario>
      reads this`usuarios
    {
      if 1 <= id <= |usuarios| then {usuarios[id - 1]} else {}
    }

    /** The loan with id `id`, as a set: empty when there is no such loan. */
    function EmprestimoAlvo(id: int): set<Emprestimo>
      reads this`emprestimos
    {
      if 1 <= id <= |emprestimos| then {emprestimos[id - 1]} else {}
    }

    /** The book of the loan with id `id`, as a set: empty when there is no such loan. */
    function LivroDoEmprestimo(id: int): set<Livro>
      reads this`emprestimos
    {
      if 1 <= id <= |emprestimos| then {emprestimos[id - 1].livro} else {}
    }

    /** The book with id `id`, if there is one (`findById`). */
    function LivroPorId(id: int): (r: Option<Livro>)
      reads this`livros
      ensures r.Some? <==> 1 <= id <= |livros|
      ensures r.Some? ==> r.value == livros[id - 1]
    {
      if 1 <= id <= |livros| then Some(livros[id - 1]) else None
    }

    /** The member with id `id`, if there is one. */
    function UsuarioPorId(id: int): (r: Option<Usuario>)
      reads this`usuarios
      ensures r.Some? <==> 1 <= id <= |usuarios|
      ensures r.Some? ==> r.value == usuarios[id - 1]
    {
      if 1 <= id <= |usuarios| then Some(usuarios[id - 1]) else None
    }

    /** The loan with id `id`, if there is one. */
    function EmprestimoPorId(id: int): (r: Option<Emprestimo>)
      reads this`emprestimos
      ensures r.Some? <==> 1 <= id <= |emprestimos|
      ensures r.Some? ==> r.value == emprestimos[id - 1]
    {
      if 1 <= id <= |emprestimos| then Some(emprestimos[id - 1]) else None
    }
  }
}
