/**
 * Shared vocabulary of the library back-end model: dates as day numbers, money in
 * cents, optional values and the two exception families the services throw.
 */
module Common {

  /** A `LocalDate` as a day number: `ChronoUnit.DAYS.between(a, b)` is `b - a`
      and `d.plusDays(n)` is `d + n`. */
  type Date = int

  /** A `BigDecimal` amount with scale 2, as an exact number of cents. */
  type Money = int

  /** A nullable column or request field. */
  datatype Option<+T> = None | Some(value: T)

  /** The entity a `ResourceNotFoundException` reports as missing. */
  datatype Resource = LivroResource | UsuarioResource | EmprestimoResource | CategoriaResource

  /** The business rule behind a `BusinessException` or an `IllegalStateException`. */
  datatype Rule =
    // EmprestimoService.validarEmprestimo, in the order it checks them
    | BookInactive | NoCopiesAvailable | UserInactive | LoanLimitReached
    | BookAlreadyHeld | UserHasOverdueLoans
    // EmprestimoService.devolver and renovar
    | AlreadyReturned | RenewalDaysOutOfRange
    // Emprestimo.renovar
    | OnlyActiveLoansRenew | OverdueLoanRenewal
    // Livro.emprestar and Livro.devolver
    | NoCopiesToLend | AvailableWouldExceedTotal
    // LivroService
    | DuplicateIsbn | NegativeAvailable
    // UsuarioService
    | DuplicateEmail | DuplicateCpf | UserHoldsLoans

  /** Everything an operation of the core can throw. */
  datatype Error =
    | NotFound(resource: Resource)     // ResourceNotFoundException
    | Business(rule: Rule)             // BusinessException
    | IllegalState(rule: Rule)         // IllegalStateException thrown by an entity
    | NullPointer                      // a null dereference inside an entity method
    | IllegalArgument                  // a negative `Stream.limit` size

  /** The value an operation returns, or what it throws. */
  datatype Result<+T> = Ok(value: T) | Err(error: Error)

  /** A check or a `void` operation: it passes, or it throws. */
  datatype Outcome = Pass | Fail(error: Error)
}
