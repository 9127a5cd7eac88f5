/**
 * The request bodies accepted by the API and the Bean Validation constraints declared on
 * them, read as validity predicates. An absent field is `None` (Java `null`); as in Bean
 * Validation, `@Size`, `@Pattern`, `@Min`, `@Max` and `@DecimalMin` accept an absent value,
 * while `@NotNull` and `@NotBlank` reject it.
 */
module Requests {
  import opened Common
  import opened Enums

  /** `@NotBlank`: present, and something is left after trimming (some character above a space). */
  predicate NotBlank(s: Option<string>)
  {
    s.Some? && exists i :: 0 <= i < |s.value| && s.value[i] > ' '
  }

  /** `@Size(min, max)` on a string. */
  predicate Tamanho(s: Option<string>, min: nat, max: nat)
  {
    s.Some? ==> min <= |s.value| <= max
  }

  predicate Digito(c: char)
  {
    '0' <= c <= '9'
  }

  /** `@Pattern(regexp = "\\d{min,max}")`, matched against the whole string. */
  predicate SoDigitos(s: Option<string>, min: nat, max: nat)
  {
    s.Some? ==> min <= |s.value| <= max && forall i :: 0 <= i < |s.value| ==> Digito(s.value[i])
  }

  /** `@Min(lo) @Max(hi)` on an optional integer. */
  predicate Entre(n: Option<int>, lo: int, hi: int)
  {
    n.Some? ==> lo <= n.value <= hi
  }

  /** A present string made only of digits is not blank. */
  lemma {:induction false} DigitosNaoBrancos(s: Option<string>, min: nat, max: nat)
    requires s.Some? && min > 0 && SoDigitos(s, min, max)
    ensures NotBlank(s)
  {
    assert Digito(s.value[0]);
    assert s.value[0] > ' ';
  }

  /** The body of a book create or update request. */
  datatype LivroRequest = LivroRequest(
    isbn: Option<string>,
    titulo: Option<string>,
    autor: Option<string>,
    editora: Option<string>,
    anoPublicacao: Option<int>,
    quantidadeTotal: Option<int>,
    valorMultaDiaria: Option<Money>,
    categoriaId: Option<int>)
  {
    predicate Valido()
    {
      && NotBlank(isbn) && SoDigitos(isbn, 13, 13)
      && NotBlank(titulo) && Tamanho(titulo, 1, 200)
      && NotBlank(autor)
      && Tamanho(editora, 0, 100)
      && Entre(anoPublicacao, 1000, 2100)
      && quantidadeTotal.Some? && quantidadeTotal.value >= 1
      && (valorMultaDiaria.Some? ==> valorMultaDiaria.value >= 0)
    }

    /** The fields a book row cannot hold as null are present. */
    predicate Completo()
    {
      isbn.Some? && titulo.Some? && autor.Some? && quantidadeTotal.Some?
    }
  }

  /** The body of a member create or update request; `emailValido` stands for `@Email`'s well-formedness check. */
  datatype UsuarioRequest = UsuarioRequest(
    nome: Option<string>,
    email: Option<string>,
    cpf: Option<string>,
    telefone: Option<string>,
    tipo: Option<TipoUsuario>)
  {
    predicate Valido(emailValido: string -> bool)
    {
      && NotBlank(nome) && Tamanho(nome, 3, 100)
      && NotBlank(email) && emailValido(email.value)
      && NotBlank(cpf) && SoDigitos(cpf, 11, 11)
      && SoDigitos(telefone, 10, 11)
      && tipo.Some?
    }

    /** The fields a member row cannot hold as null are present. */
    predicate Completo()
    {
      nome.Some? && email.Some? && cpf.Some? && tipo.Some?
    }
  }

  /** The body of a checkout request. */
  datatype EmprestimoRequest = EmprestimoRequest(
    livroId: Option<int>,
    usuarioId: Option<int>,
    observacoes: Option<string>)
  {
    predicate Valido()
    {
      livroId.Some? && usuarioId.Some? && Tamanho(observacoes, 0, 500)
    }
  }

  /** The 13-digit ISBN pattern alone already rules out a blank ISBN, and likewise the 11-digit CPF pattern. */
  lemma PadroesExcluemBranco(dto: LivroRequest, udto: UsuarioRequest)
    ensures dto.isbn.Some? && SoDigitos(dto.isbn, 13, 13) ==> NotBlank(dto.isbn)
    ensures udto.cpf.Some? && SoDigitos(udto.cpf, 11, 11) ==> NotBlank(udto.cpf)
  {
    if dto.isbn.Some? && SoDigitos(dto.isbn, 13, 13) {
      DigitosNaoBrancos(dto.isbn, 13, 13);
    }
    if udto.cpf.Some? && SoDigitos(udto.cpf, 11, 11) {
      DigitosNaoBrancos(udto.cpf, 11, 11);
    }
  }
}
