/** The two enumerations of the domain: member types with their borrowing rules, and loan states. */
module Enums {

  /** Where a loan is in its lifecycle. */
  datatype StatusEmprestimo = Ativo | Renovado | Devolvido

  /** A member's category; each constant fixes a borrowing limit and a loan period in days. */
  datatype TipoUsuario = Estudante | Professor | Funcionario | Externo
  {
    /** The (limiteEmprestimos, diasEmprestimo) pair the constant is declared with. */
    function Parametros(): (p: (int, int))
    {
      match this
      case Estudante => (3, 14)
      case Professor => (5, 21)
      case Funcionario => (3, 14)
      case Externo => (2, 7)
    }

    /** How many loans a member of this type may hold at once. */
    function LimiteEmprestimos(): (n: int)
      ensures n > 0
    {
      Parametros().0
    }

    /** How many days a loan taken by a member of this type runs. */
    function DiasEmprestimo(): (n: int)
      ensures n >= 7
    {
      Parametros().1
    }
  }

  /** The declared table: limit and loan period of every member type. */
  lemma TabelaTipoUsuario()
    ensures Estudante.LimiteEmprestimos() == 3 && Estudante.DiasEmprestimo() == 14
    ensures Professor.LimiteEmprestimos() == 5 && Professor.DiasEmprestimo() == 21
    ensures Funcionario.LimiteEmprestimos() == 3 && Funcionario.DiasEmprestimo() == 14
    ensures Externo.LimiteEmprestimos() == 2 && Externo.DiasEmprestimo() == 7
  {
  }
}
