# GerenciadorAlunos: the `Aluno` student record

A Dafny model of the `Aluno` (student) class of GerenciadorAlunos, with
proofs about it. An `Aluno` holds:

- a name (`Nome`), whose setter ignores null and empty strings;
- a registration number (`Matricula`), fixed at construction;
- a birthdate (`DataNascimento`), whose setter ignores any value that is not
  strictly earlier than the current moment;
- an age (`Idade`), computed as the current calendar year minus the birth
  year.

The constructor goes through the same two setters. An invalid argument
therefore leaves the field's default in place: null for the name,
`DateTime.MinValue` for the birthdate.

Layout:

- `options.dfy` (module `Options`): `Option`, standing for a C# string
  reference that may be null.
- `dates.dfy` (module `Dates`): the part of `System.DateTime` the class uses.
  A date is a year, month, day and time of day in ticks. The valid range is
  years 1 to 9999. The module also defines the strict order `Before` (C#'s
  `<`) and `MinValue`.
- `aluno.dfy` (module `GerenciadorAlunos`):
  - the class `Aluno`, whose setters are methods with `modifies this`
    and whose age getter is a function that `reads this`;
  - the setter rules as pure functions (`AssignNome`,
    `AssignDataNascimento`);
  - folds of those rules over a sequence of assignments (`NomeAfter`,
    `DataNascimentoAfter`);
  - a reference age, `CompletedYears`: the usual completed-years formula,
    proved to count the birthdays reached when `today` is on or after the
    birth (it goes negative before the birth);
  - lemmas relating all of these.

Clock reads are parameters. `now` replaces `DateTime.Now`, which the
birthdate setter and the constructor read. `today` replaces `DateTime.Today`,
which `Idade` reads. `Matricula` is a `const` field, so Dafny itself rules out
any assignment after construction.

## Model

| member | source | states |
|---|---|---|
| GerenciadorAlunos.AssignNome | obsidian/2_projetos/projeto_1/GerenciadorAlunos/Aluno.cs:18-24 | A non-null, non-empty value replaces the name. A null or empty value leaves the previous name. |
| GerenciadorAlunos.Aluno.SetNome | obsidian/2_projetos/projeto_1/GerenciadorAlunos/Aluno.cs:18-24 | The new name is `AssignNome(old name, value)`. The birthdate is unchanged and so is the registration number (a `const`). The invariant "name is null or non-empty" is kept. |
| GerenciadorAlunos.AssignDataNascimento | obsidian/2_projetos/projeto_1/GerenciadorAlunos/Aluno.cs:33-39 | A value strictly earlier than `now` is stored. Any value equal to or later than `now` leaves the previous birthdate. |
| GerenciadorAlunos.Aluno.SetDataNascimento | obsidian/2_projetos/projeto_1/GerenciadorAlunos/Aluno.cs:33-39 | The new birthdate is `AssignDataNascimento(old birthdate, value, now)`. The name is unchanged and so is the registration number. The invariant "name is null or non-empty" is kept. |
| GerenciadorAlunos.Aluno.constructor | obsidian/2_projetos/projeto_1/GerenciadorAlunos/Aluno.cs:52-57 | The registration number is the argument. The name is the argument if it is non-null and non-empty, otherwise null. The birthdate is the argument if it is earlier than `now`, otherwise `DateTime.MinValue`. The name invariant holds. |
| GerenciadorAlunos.AssignNomeIdempotent | obsidian/2_projetos/projeto_1/GerenciadorAlunos/Aluno.cs:20-22 | Assigning the same name twice gives the same state as assigning it once. |
| GerenciadorAlunos.AssignDataNascimentoIdempotent | obsidian/2_projetos/projeto_1/GerenciadorAlunos/Aluno.cs:35-37 | Assigning the same birthdate twice against the same clock reading gives the same state as assigning it once. |
| GerenciadorAlunos.RefusedDateAcceptedLater | obsidian/2_projetos/projeto_1/GerenciadorAlunos/Aluno.cs:35-38 | Acceptance depends on the clock. For any stored birthdate, a date equal to the clock reading is refused (the `<` is strict), and the same assignment made at any later reading stores it. |
| GerenciadorAlunos.NomeAfterRejectedSuffix | obsidian/2_projetos/projeto_1/GerenciadorAlunos/Aluno.cs:20-23 | Null or empty names assigned at the end of a history leave the name as it was before them. |
| GerenciadorAlunos.NomeAfterNoneAccepted | obsidian/2_projetos/projeto_1/GerenciadorAlunos/Aluno.cs:18-24 | If every name assigned was null or empty, the name is still the initial one. |
| GerenciadorAlunos.NomeAfterIsLastAccepted | obsidian/2_projetos/projeto_1/GerenciadorAlunos/Aluno.cs:18-24 | After any sequence of name assignments, the name is the last non-null, non-empty value assigned. |
| GerenciadorAlunos.NomeNeverLost | obsidian/2_projetos/projeto_1/GerenciadorAlunos/Aluno.cs:20-23 | Once a valid name is stored, no sequence of assignments makes it null or empty again. The name is always either the initial one or a valid one. |
| GerenciadorAlunos.DataNascimentoAfterRejectedSuffix | obsidian/2_projetos/projeto_1/GerenciadorAlunos/Aluno.cs:35-38 | Refused birthdate assignments at the end of a history leave the birthdate as it was before them. |
| GerenciadorAlunos.DataNascimentoAfterNoneAccepted | obsidian/2_projetos/projeto_1/GerenciadorAlunos/Aluno.cs:33-39 | If no birthdate assigned was earlier than its clock reading, the birthdate is still the initial one. |
| GerenciadorAlunos.DataNascimentoAfterIsLastAccepted | obsidian/2_projetos/projeto_1/GerenciadorAlunos/Aluno.cs:33-39 | After any sequence of birthdate assignments, the birthdate is the value of the last one that was earlier than its clock reading. |
| GerenciadorAlunos.DataNascimentoStaysInPast | obsidian/2_projetos/projeto_1/GerenciadorAlunos/Aluno.cs:35-38 | Suppose the clock never runs backwards. Then after a non-empty sequence of assignments, the birthdate is either the initial one or strictly earlier than the latest clock reading. |
| GerenciadorAlunos.Aluno.Idade | obsidian/2_projetos/projeto_1/GerenciadorAlunos/Aluno.cs:42-50 | A function that only reads the object. The age plus the birth year is the year of `today`. It equals the completed-years formula `CompletedYears`, plus one while this year's birthday is still ahead. |
| GerenciadorAlunos.IdadeIgnoresMonthAndDay | obsidian/2_projetos/projeto_1/GerenciadorAlunos/Aluno.cs:42-50 | `Idade` depends only on the year of `today` and the birth year. Month, day and time of either date play no part. |
| GerenciadorAlunos.IdadeVersusCompletedYears | obsidian/2_projetos/projeto_1/GerenciadorAlunos/Aluno.cs:46-48 | Compared with `CompletedYears` (the birthdays reached, see CompletedYearsCounts), `Idade` is exact once this year's birthday has come. Before it, `Idade` is exactly one too high. |
| GerenciadorAlunos.CompletedYearsCounts | obsidian/2_projetos/projeto_1/GerenciadorAlunos/Aluno.cs:46-48 | The reference `CompletedYears` means what its name says: for every k ≥ 1, the k-th birthday has come by `today` exactly when k ≤ `CompletedYears`. It is not negative when `today` is on or after the birth. |
| GerenciadorAlunos.IdadeNewYearExample | obsidian/2_projetos/projeto_1/GerenciadorAlunos/Aluno.cs:46-48 | Born 31 December 2020 and observed 1 January 2021: `Idade` is 1, while the completed years are 0. |
| GerenciadorAlunos.IdadeNonNegative | obsidian/2_projetos/projeto_1/GerenciadorAlunos/Aluno.cs:35-47 | Suppose a birthdate was accepted against a clock reading no later in years than `today`. Then `Idade` is not negative. |
| Dates.BeforeIsStrictTotalOrder | obsidian/2_projetos/projeto_1/GerenciadorAlunos/Aluno.cs:35 | The `<` the birthdate setter uses is irreflexive, transitive, total and asymmetric. |
| Dates.MinValueIsLeast | obsidian/2_projetos/projeto_1/GerenciadorAlunos/Aluno.cs:29 | No valid date is before `DateTime.MinValue`, the default birthdate, and it is before every other valid date. |

## Left out

- The system clock. `DateTime.Now` (Aluno.cs:35) and `DateTime.Today` (Aluno.cs:46) are parameters (`now`, `today`). Nothing ties `today` to `now`.
- `DateTime.Now` (Aluno.cs:35) is local wall-clock time. It can run backwards when daylight-saving time ends or the system clock is reset. `DataNascimentoStaysInPast` assumes a clock that never runs backwards, so it does not cover those cases: then a stored birthdate can be later than the latest reading.
- Ticks, time zones and `DateTime.Kind`. A date is year, month, day and time of day, compared in that order. For valid values this order matches the tick order C# uses.
- Getters: `Nome` and `DataNascimento` return their backing fields (Aluno.cs:14-17, 32). In the model those are the fields `nome` and `dataNascimento`, read directly.
- Object initializers. C#'s `init` accessor also allows `Matricula` to be assigned in an object initializer right after the constructor runs. The model's `const` fixes it at the constructor argument.
- The unused `using` directives (Aluno.cs:1-5) and every other class in the repository. The rectangle exercise and its console program are not part of this model.
