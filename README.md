# Library loan lifecycle — a Dafny model of biblioteca-api

This project models the core of a small library back-end: books with a counter of physical
copies, members whose type fixes a borrowing limit and a loan period, and loans that are
checked out, renewed and returned. It covers:

- the entities and the rules they enforce on themselves;
- the services that check out, return and renew loans, and that maintain books and members;
- the loan-table queries those services rely on;
- the request validators and the mappers that give new entities their initial state;
- the report aggregations.

The model is written in the code's own form:

- **Entities (classes).** `Livro`, `Usuario` and `Emprestimo` are classes, because their
  methods and the services update their fields in place.
- **The database (class).** `Persistence.Biblioteca` holds the three tables as sequences of
  objects. An entity's id is its 1-based position in its table: ids are generated in order
  and nothing is ever physically deleted.
- **Queries and reports (pure functions).** The repository queries and the report pipelines
  are pure functions over the loan table's rows, a sequence of `Registro` values.
- **Service calls (methods).** Each service call is one method that takes the database and
  today's date. A call that fails leaves the database as it was, which is how the
  transaction rollback is modelled.
- **Units.** Dates are day numbers. Money is an integer number of cents.

Every service method keeps the database invariant `Biblioteca.Valid`:

- ISBN, e-mail and CPF are each unique.
- Every loan refers to a stored book and a stored member.
- A loan has a return date exactly when its status is `Devolvido`.
- No loan carries a fine.
- Every category a book refers to exists.
- Every book's missing copies are exactly its open loans. This implies
  `0 <= quantidadeDisponivel <= quantidadeTotal`.

### Behaviours of the code that a reader might not expect

- **Renewal happens once.** `Emprestimo.renovar` accepts only status `ATIVO`, so a loan
  that was renewed once (status `RENOVADO`) can never be renewed again, even when it is
  not overdue.
- **Fines are never recorded.** `Emprestimo.devolver` stamps the return date before
  `calcularMulta` runs. `calcularMulta` acts only when `isAtrasado()` holds, and that needs a
  null return date. So a return never records a fine.
  - On its own, the fine branch would compute the number of days up to a null return date,
    which throws a NullPointerException. `Entity.Emprestimo.CalcularMulta` models exactly
    this.
  - As a consequence, the fine totals in the reports are always zero.
    `RelatorioService.RelatorioGeralConsistente` and `RelatorioService.MultasDoPeriodoNulas`
    prove this.
- **Checkout lookup order.** Checkout looks up the book and then the member; both lookups
  come before any business rule. So an inactive book with an unknown member is reported as
  NotFound, not as an inactive book.
- **Return guard.** A return is refused when the loan already has a return date, not when
  its status is `DEVOLVIDO`. Under the invariant the two tests agree.
- **"Active" in the general report.** The report counts only status `ATIVO`, so renewed
  loans that are still out are not counted as active.

## Model

| member | source | states |
|---|---|---|
| Enums.TipoUsuario.LimiteEmprestimos | src/main/java/com/enzo_molinaro/biblioteca/enums/TipoUsuario.java:17-19 | every member type has a positive borrowing limit |
| Enums.TipoUsuario.DiasEmprestimo | src/main/java/com/enzo_molinaro/biblioteca/enums/TipoUsuario.java:21-23 | every member type has a loan period of at least 7 days |
| Enums.TabelaTipoUsuario | src/main/java/com/enzo_molinaro/biblioteca/enums/TipoUsuario.java:4-7 | the (limit, days) table: student 3/14, professor 5/21, staff 3/14, external 2/7 |
| Entity.Livro.constructor | src/main/java/com/enzo_molinaro/biblioteca/entity/Livro.java:58-60 | a book built without an `ativo` value is active; every given column is stored |
| Entity.Livro.Emprestar | src/main/java/com/enzo_molinaro/biblioteca/entity/Livro.java:71-76 | refused with nothing changed when no copy is available, else takes exactly one copy; keeps `0 <= disponível <= total` |
| Entity.Livro.Devolver | src/main/java/com/enzo_molinaro/biblioteca/entity/Livro.java:78-83 | refused with nothing changed when every copy is on the shelf, else puts back exactly one copy; keeps the bounds |
| Entity.EmprestarDevolverRestaura | src/main/java/com/enzo_molinaro/biblioteca/entity/Livro.java:71-83 | lending and then returning a copy leaves the counter where it was, and both succeed when a copy was available |
| Entity.Usuario.constructor | src/main/java/com/enzo_molinaro/biblioteca/entity/Usuario.java:42-48 | a member built without values is active with a limit of 3 |
| Entity.Usuario.EmprestimosAtivos | src/main/java/com/enzo_molinaro/biblioteca/entity/Usuario.java:63-67 | the open-loan count is at most the number of the member's loans |
| Entity.Usuario.PodeEmprestar | src/main/java/com/enzo_molinaro/biblioteca/entity/Usuario.java:69-71 | the member may borrow exactly when it is active and its open-loan count is below its limit; `Entity.NovoEmprestimoNoLimite` shows that one more open loan keeps it within the limit |
| Entity.SemEmprestimosAtivos | src/main/java/com/enzo_molinaro/biblioteca/entity/Usuario.java:63-67 | the open-loan count is zero exactly when none of the member's loans lacks a return date |
| Entity.NovoEmprestimoNoLimite | src/main/java/com/enzo_molinaro/biblioteca/entity/Usuario.java:63-71 | a member who may borrow and takes one more open loan has an open-loan count exactly one higher, and still at most the limit |
| Entity.DevolucaoReduzAtivos | src/main/java/com/enzo_molinaro/biblioteca/entity/Usuario.java:64-66 | stamping a return date on one of the member's open loans lowers the open-loan count by exactly one |
| Entity.Registro.IsAtrasado | src/main/java/com/enzo_molinaro/biblioteca/entity/Emprestimo.java:77-80 | overdue exactly when there is no return date and the given day, which stands for `LocalDate.now()`, is after the due date; `Entity.Registro.DiasAtraso` is zero exactly when it is not overdue |
| Entity.Registro.DiasAtraso | src/main/java/com/enzo_molinaro/biblioteca/entity/Emprestimo.java:77-85 | zero exactly when the loan is not overdue (overdue = no return date and today after the due date); otherwise due date plus the result is today |
| Entity.Emprestimo.constructor | src/main/java/com/enzo_molinaro/biblioteca/entity/Emprestimo.java:46-47 | a loan built without a status is `Ativo`, with no return date and no fine |
| Entity.Emprestimo.Devolver | src/main/java/com/enzo_molinaro/biblioteca/entity/Emprestimo.java:60-64 | return date becomes today and status `Devolvido`, nothing else changes (no fine); the loan is then not overdue and consistent |
| Entity.Emprestimo.CalcularMulta | src/main/java/com/enzo_molinaro/biblioteca/entity/Emprestimo.java:87-98 | leaves the loan untouched unless it is overdue with a daily rate, and in that case fails with a NullPointerException |
| Entity.Emprestimo.Renovar | src/main/java/com/enzo_molinaro/biblioteca/entity/Emprestimo.java:66-75 | refused unless `Ativo` (first) and not overdue (second), with nothing changed; on success only the due date (+days) and status (`Renovado`) change |
| Requests.LivroRequest.Valido | src/main/java/com/enzo_molinaro/biblioteca/dto/request/LivroRequestDTO.java:15-38 | the book request's constraints: ISBN not blank and exactly 13 digits; title not blank with 1 to 200 characters; author not blank; publisher at most 100 characters; year from 1000 to 2100; total present and at least 1; daily fine not negative. An absent optional field passes |
| Requests.UsuarioRequest.Valido | src/main/java/com/enzo_molinaro/biblioteca/dto/request/UsuarioRequestDTO.java:14-30 | the member request's constraints: name not blank with 3 to 100 characters; e-mail not blank and well formed (the `@Email` check is a parameter); CPF not blank and exactly 11 digits; phone, when present, 10 or 11 digits; type present |
| Requests.EmprestimoRequest.Valido | src/main/java/com/enzo_molinaro/biblioteca/dto/request/EmprestimoRequestDTO.java:13-20 | the checkout request's constraints: book id and member id present; observations, when present, at most 500 characters |
| Requests.DigitosNaoBrancos | src/main/java/com/enzo_molinaro/biblioteca/dto/request/LivroRequestDTO.java:15-16 | a present, non-empty all-digit string is not blank |
| Requests.PadroesExcluemBranco | src/main/java/com/enzo_molinaro/biblioteca/dto/request/UsuarioRequestDTO.java:22-23 | the ISBN and CPF digit patterns alone rule out blank values |
| Mappers.Mesclar | src/main/java/com/enzo_molinaro/biblioteca/mapper/LivroMapper.java:24 | the ignore-nulls strategy: a present value replaces the field, an absent one keeps it |
| Mappers.LivroToEntity | src/main/java/com/enzo_molinaro/biblioteca/mapper/LivroMapper.java:13-17 | a new book has every copy available, is active and takes its category from `categoriaId`; from a valid request it has at least one copy and a counter within `0..total` |
| Mappers.LivroUpdateEntityFromDTO | src/main/java/com/enzo_molinaro/biblioteca/mapper/LivroMapper.java:24-27 | present request values replace the book's fields; available copies and the active flag are never written |
| Mappers.UsuarioToEntity | src/main/java/com/enzo_molinaro/biblioteca/mapper/UsuarioMapper.java:13-16 | a new member is active with the borrowing limit of its type |
| Mappers.UsuarioUpdateEntityFromDTO | src/main/java/com/enzo_molinaro/biblioteca/mapper/UsuarioMapper.java:23-26 | present values replace the member's fields; the limit is recomputed from the type; the active flag is kept |
| Mappers.UsuarioToResponse | src/main/java/com/enzo_molinaro/biblioteca/mapper/UsuarioMapper.java:18-19 | the response's open-loan count is the entity's, and "active and under the limit" in the response is exactly the entity's `podeEmprestar` |
| EmprestimoRepository.EmprestimosDoUsuario | src/main/java/com/enzo_molinaro/biblioteca/entity/Usuario.java:50-52 | the member's loan list: every loan row of that member; the result keeps each such row with its multiplicity in the table and holds no other row |
| EmprestimoRepository.FindByStatus | src/main/java/com/enzo_molinaro/biblioteca/repository/EmprestimoRepository.java:38 | the rows with the given status; the result keeps each such row with its multiplicity in the table and holds no other row; its length is the number of table positions with that status |
| EmprestimoRepository.FindByUsuarioIdAndStatus | src/main/java/com/enzo_molinaro/biblioteca/repository/EmprestimoRepository.java:18 | the rows of the member with the given status; the result keeps each such row with its multiplicity in the table and holds no other row |
| EmprestimoRepository.FindByLivroIdAndStatus | src/main/java/com/enzo_molinaro/biblioteca/repository/EmprestimoRepository.java:20 | the rows of the book with the given status; the result keeps each such row with its multiplicity in the table and holds no other row |
| EmprestimoRepository.FindEmprestimosAtivosDoUsuario | src/main/java/com/enzo_molinaro/biblioteca/repository/EmprestimoRepository.java:22-23 | the member's rows with no return date; the result keeps each such row with its multiplicity in the table and holds no other row |
| EmprestimoRepository.CountEmprestimosAtivosByUsuarioId | src/main/java/com/enzo_molinaro/biblioteca/repository/EmprestimoRepository.java:25-26 | the query count equals the entity's open-loan count over the member's loan list |
| EmprestimoRepository.FindEmprestimosAtrasados | src/main/java/com/enzo_molinaro/biblioteca/repository/EmprestimoRepository.java:28-30 | the rows with no return date and due before the date, which are the rows overdue on that date; the result keeps each such row with its multiplicity in the table and holds no other row; its length is the number of overdue table positions |
| EmprestimoRepository.FindEmprestimosPorPeriodo | src/main/java/com/enzo_molinaro/biblioteca/repository/EmprestimoRepository.java:32-36 | the rows whose due date lies in the period, both bounds included; the result keeps each such row with its multiplicity in the table and holds no other row; its length is the number of such table positions |
| EmprestimoRepository.FindByUsuarioIdOrderByDataEmprestimoDesc | src/main/java/com/enzo_molinaro/biblioteca/repository/EmprestimoRepository.java:40-46 | a permutation of the member's loans, newest loan date first |
| EmprestimoRepository.HistoricoCompleto | src/main/java/com/enzo_molinaro/biblioteca/repository/EmprestimoRepository.java:40-46 | the ordered history contains every loan of the member and nothing else |
| EmprestimoRepository.ExistsByUsuarioIdAndLivroIdAndDataDevolucaoIsNull | src/main/java/com/enzo_molinaro/biblioteca/repository/EmprestimoRepository.java:52 | true exactly when some row pairs the member with the book and has no return date |
| Persistence.Biblioteca.EstoquesValidos | src/main/java/com/enzo_molinaro/biblioteca/entity/Livro.java:71-83 | in a valid database every book's counter lies within `0..total` |
| Persistence.Biblioteca.AbertoOcupaExemplar | src/main/java/com/enzo_molinaro/biblioteca/service/EmprestimoService.java:120-121 | an open loan's book has fewer copies on the shelf than it owns, so returning it never trips the counter's guard |
| EmprestimoService.ContagemDeAtrasos | src/main/java/com/enzo_molinaro/biblioteca/service/EmprestimoService.java:181-187 | counting the overdue loans among the member's open loans finds one exactly when the member has an overdue loan |
| EmprestimoService.ValidarEmprestimo | src/main/java/com/enzo_molinaro/biblioteca/service/EmprestimoService.java:154-192 | the six checkout rules in the source's order: book inactive, no copy available, member inactive, member at the limit, book already held, member with an overdue loan; the first broken rule is returned, else `Pass`. `EmprestimoService.RegraVioladaPrimeiro` and `EmprestimoService.ValidarEmprestimoPassa` prove this |
| EmprestimoService.ValidarEmprestimoPassa | src/main/java/com/enzo_molinaro/biblioteca/service/EmprestimoService.java:154-192 | passes exactly when the book is active with a copy, the member is active and under the limit, does not hold this book and has no overdue loan |
| EmprestimoService.RegraVioladaPrimeiro | src/main/java/com/enzo_molinaro/biblioteca/service/EmprestimoService.java:154-191 | each refusal happens exactly when its rule is the first one broken, in the declared order |
| EmprestimoService.Efetivar | src/main/java/com/enzo_molinaro/biblioteca/service/EmprestimoService.java:48-60 | for a book with a copy on the shelf and a member allowed to borrow: appends a fresh `Ativo` loan dated today and due after the member type's period, takes one copy of the book and raises the member's open-loan count by one; keeps the invariant |
| EmprestimoService.Criar | src/main/java/com/enzo_molinaro/biblioteca/service/EmprestimoService.java:36-64 | book NotFound, then member NotFound, then the checkout rules decide; failure changes no loan and no counter; success is `Efetivar` |
| EmprestimoService.Devolver | src/main/java/com/enzo_molinaro/biblioteca/service/EmprestimoService.java:110-132 | NotFound, then refused when already returned, with nothing changed; otherwise an `Ativo` or `Renovado` loan becomes `Devolvido` today and its book gets one copy back; keeps the invariant |
| EmprestimoService.Renovar | src/main/java/com/enzo_molinaro/biblioteca/service/EmprestimoService.java:135-152 | the day range 1–30 is checked before the lookup, then NotFound, then the loan's own rules; success only moves the due date and sets `Renovado` |
| EmprestimoService.BuscarPorId | src/main/java/com/enzo_molinaro/biblioteca/service/EmprestimoService.java:67-74 | the loan's row, or NotFound exactly for an unknown id |
| EmprestimoService.ListarPorUsuario | src/main/java/com/enzo_molinaro/biblioteca/service/EmprestimoService.java:91-100 | NotFound exactly for an unknown member, else the member's loans newest first |
| EmprestimoService.ListarAtrasados | src/main/java/com/enzo_molinaro/biblioteca/service/EmprestimoService.java:103-107 | exactly the loans overdue today, each as often as it occurs in the loan table |
| LivroService.ExistsByIsbn | src/main/java/com/enzo_molinaro/biblioteca/repository/LivroRepository.java:19 | true exactly when some stored book, active or not, has the ISBN |
| LivroService.IsbnDeOutroLivro | src/main/java/com/enzo_molinaro/biblioteca/service/LivroService.java:102-104 | under the invariant, "ISBN changed and taken" holds exactly when another book has that ISBN, so keeping one's own ISBN is allowed |
| LivroService.Criar | src/main/java/com/enzo_molinaro/biblioteca/service/LivroService.java:31-50 | a taken ISBN is refused first, then an unknown category; failure stores nothing; success appends an active book with every copy available; keeps the invariant |
| LivroService.BuscarPorId | src/main/java/com/enzo_molinaro/biblioteca/service/LivroService.java:53-60 | the book's columns, or NotFound exactly for an unknown id |
| LivroService.Ajustado | src/main/java/com/enzo_molinaro/biblioteca/service/LivroService.java:106-113 | the available count moves with the total, so the number of copies away from the shelf is unchanged |
| LivroService.AjusteCobreCirculacao | src/main/java/com/enzo_molinaro/biblioteca/service/LivroService.java:111-117 | under the invariant the adjusted count is the new total minus the copies on loan, negative exactly when the new total is below them |
| LivroService.Atualizar | src/main/java/com/enzo_molinaro/biblioteca/service/LivroService.java:96-130 | NotFound, then a taken ISBN, then a negative adjusted count, then an unknown category; failure leaves the book as it was; success writes the present values and the adjusted count; keeps the invariant |
| LivroService.Deletar | src/main/java/com/enzo_molinaro/biblioteca/service/LivroService.java:133-143 | NotFound exactly for an unknown id, else only the book's active flag becomes false |
| LivroService.IsDisponivel | src/main/java/com/enzo_molinaro/biblioteca/service/LivroService.java:153-157 | NotFound exactly for an unknown id |
| LivroService.DisponivelSeSobraExemplar | src/main/java/com/enzo_molinaro/biblioteca/service/LivroService.java:153-157 | under the invariant a book is available exactly when fewer of its copies are on loan than it owns, whatever its active flag |
| UsuarioService.FindByEmail | src/main/java/com/enzo_molinaro/biblioteca/repository/UsuarioRepository.java:18 | nothing exactly when no member has the e-mail, else a member who has it |
| UsuarioService.FindByCpf | src/main/java/com/enzo_molinaro/biblioteca/repository/UsuarioRepository.java:20 | nothing exactly when no member has the CPF, else a member who has it |
| UsuarioService.ValidarUsuarioUnico | src/main/java/com/enzo_molinaro/biblioteca/service/UsuarioService.java:117-131 | only passes or refuses a duplicate e-mail or CPF; with no member excluded it passes exactly when nobody has the e-mail or the CPF |
| UsuarioService.UnicidadeExata | src/main/java/com/enzo_molinaro/biblioteca/service/UsuarioService.java:117-131 | when no two members share an e-mail or a CPF: e-mail refused exactly when another member has it; CPF refused exactly when the e-mail is free and another member has the CPF |
| UsuarioService.ProprioCadastroPermitido | src/main/java/com/enzo_molinaro/biblioteca/service/UsuarioService.java:120-127 | a member keeping its own e-mail and CPF passes the check that excludes its own id |
| UsuarioService.Criar | src/main/java/com/enzo_molinaro/biblioteca/service/UsuarioService.java:29-39 | the uniqueness check decides; failure stores nothing; success appends an active member with its type's limit; keeps the invariant |
| UsuarioService.Atualizar | src/main/java/com/enzo_molinaro/biblioteca/service/UsuarioService.java:74-87 | NotFound before the uniqueness check, which excludes the member itself; failure leaves the member unchanged; success writes the request and recomputes the limit |
| UsuarioService.AtivosSeAberto | src/main/java/com/enzo_molinaro/biblioteca/service/UsuarioService.java:96-97 | the member's open-loan count is positive exactly when the member holds a loan with no return date |
| UsuarioService.Deletar | src/main/java/com/enzo_molinaro/biblioteca/service/UsuarioService.java:90-108 | NotFound; refused exactly while the member holds an open loan, with nothing changed; otherwise only the active flag becomes false |
| UsuarioService.PodeEmprestar | src/main/java/com/enzo_molinaro/biblioteca/service/UsuarioService.java:111-115 | NotFound exactly for an unknown id, else "active and open loans (by the repository count) under the limit" |
| UsuarioService.PodeEmprestarNoCheckout | src/main/java/com/enzo_molinaro/biblioteca/service/EmprestimoService.java:163-172 | for a lendable book, the eligibility query answers false exactly when checkout refuses the member as inactive or at the limit |
| RelatorioService.SomaMultas | src/main/java/com/enzo_molinaro/biblioteca/service/RelatorioService.java:55-58 | the sum of the present fines is zero when there are none and non-negative when all are |
| RelatorioService.SomaMultasConcat | src/main/java/com/enzo_molinaro/biblioteca/service/RelatorioService.java:55-58 | the fine total of two blocks of rows is the sum of their totals, so the total does not depend on how the rows are grouped |
| RelatorioService.Indisponiveis | src/main/java/com/enzo_molinaro/biblioteca/repository/LivroRepository.java:35-36 | the number of positions holding an active book with no copy available; hence at most the number of books, and zero exactly when there is no such book |
| RelatorioService.GerarRelatorioGeral | src/main/java/com/enzo_molinaro/biblioteca/service/RelatorioService.java:37-72 | the table sizes; the active count is the number of loans with status `Ativo`; the overdue count is the number of loans overdue today; the unavailable count is the number of active books with no copy on the shelf; generated today |
| RelatorioService.RelatorioGeralConsistente | src/main/java/com/enzo_molinaro/biblioteca/service/RelatorioService.java:47-68 | under the invariant: active + renewed + returned loans = all loans, overdue + returned ≤ all loans, accumulated fines = 0 |
| RelatorioService.PorPeriodo | src/main/java/com/enzo_molinaro/biblioteca/service/RelatorioService.java:157-195 | the total is the number of loans due in the period; on time, late and still out are each the number of loans due in the period in that class; the three add up to the total |
| RelatorioService.MultasDoPeriodoNulas | src/main/java/com/enzo_molinaro/biblioteca/service/RelatorioService.java:180-183 | under the invariant a period's fines add up to zero |
| RelatorioService.ProximosDoVencimento | src/main/java/com/enzo_molinaro/biblioteca/service/RelatorioService.java:198-210 | exactly the loans with no return date due between today and today + days, each as often as it occurs in the loan table |
| RelatorioService.OrdenadoProps | src/main/java/com/enzo_molinaro/biblioteca/service/RelatorioService.java:78-87 | the ordered tally lists every key once with its number of loans, counts non-increasing |
| RelatorioService.Ranking | src/main/java/com/enzo_molinaro/biblioteca/service/RelatorioService.java:78-88 | at most `limite` entries, each with its key's positive loan count, counts non-increasing, no key twice |
| RelatorioService.RankingTopo | src/main/java/com/enzo_molinaro/biblioteca/service/RelatorioService.java:87-88 | a key left out means the list is full and every listed key has at least as many loans |
| RelatorioService.FiltroClassifica | src/main/java/com/enzo_molinaro/biblioteca/service/RelatorioService.java:95-96 | dropping entries keeps counts, order and distinct keys |
| RelatorioService.FiltradoProps | src/main/java/com/enzo_molinaro/biblioteca/service/RelatorioService.java:89-96 | the ranking without the keys no longer stored keeps its shape and lists only stored keys |
| RelatorioService.MaisEmprestados | src/main/java/com/enzo_molinaro/biblioteca/service/RelatorioService.java:75-113 | a negative limit is an illegal argument; else at most `limite` stored books with their loan counts, non-increasing, each once |
| RelatorioService.UsuariosMaisAtivos | src/main/java/com/enzo_molinaro/biblioteca/service/RelatorioService.java:116-154 | the same for members |
| RelatorioService.NadaDescartado | src/main/java/com/enzo_molinaro/biblioteca/service/RelatorioService.java:89-96 | when every counted key is stored, dropping missing keys drops nothing |
| RelatorioService.RankingsSemDescarte | src/main/java/com/enzo_molinaro/biblioteca/service/RelatorioService.java:89-96 | under the invariant both rankings are exactly the top of their tallies |
| RelatorioService.LivrosPorCategoria | src/main/java/com/enzo_molinaro/biblioteca/service/RelatorioService.java:213-223 | every category listed has a positive count |
| RelatorioService.ContagemPorCategoria | src/main/java/com/enzo_molinaro/biblioteca/service/RelatorioService.java:216-222 | a category name maps to the number of books in it, and a name with no book is absent |

## Left out

- Controllers, response DTOs, the OpenAPI configuration, logging, paging (`Pageable`) and the `listarTodos`/`listarPorStatus`/`buscar`/`listarPorTipo`/`buscarPorAutor`/`listarDisponiveis`/`listarPorCategoria` listings: routing and plain lookups with no rule of their own.
- The case-insensitive `LIKE` searches of the book and member repositories: text matching is not modelled.
- Spring transactions: each service call is one atomic step, and a failing call leaves the database unchanged because every check runs before the first write. Concurrency and isolation are not modelled.
- JPA identity generation, lazy loading, cascades and the creation/update timestamps: an id is a position in its table, and the timestamps are not modelled.
- The wall clock: "today" is a parameter of every operation that reads `LocalDate.now()`.
- Requests.Tamanho and Requests.SoDigitos count a string's length in Unicode scalar values, while `@Size` and `@Pattern` on a Java `String` count UTF-16 code units. A value with characters outside the Basic Multilingual Plane (emoji, say) is longer in Java than in the model. So `LivroRequest.Valido`, `UsuarioRequest.Valido` and `EmprestimoRequest.Valido` can accept a title, publisher, name or observation that Java finds too long, and can reject one that Java finds long enough. The ISBN, CPF and phone patterns are unaffected, because a digit is one unit in both.
- `@Email`'s address syntax: the member-request predicate takes the e-mail check as a parameter.
- The result of `findEmprestimosAtivosDoUsuario(null)` in the general report is never used, so it is not modelled.
- Report maps: the `Map<String, Object>` envelopes and their `dataGeracao` entries are replaced by typed records and sequences; the book response mapping of the ranking is not modelled.
- RelatorioService.Ranking: entries with equal counts come in an order that the model fixes and the source leaves to a hash map; only the order of the counts is stated.
- RelatorioService.LivrosPorCategoria: requires every book's category to exist, as the database invariant guarantees; a dangling category reference is not modelled.
- `Categoria` and its repository: categories are a read-only map from id to name.
- Money is an exact integer; `BigDecimal` scale and rounding are not modelled.
