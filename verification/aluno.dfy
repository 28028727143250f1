/**
 * The student record of GerenciadorAlunos: a name and a birthdate whose
 * setters silently refuse invalid values, a registration number fixed at
 * construction, and an age derived from the birthdate.
 *
 * The two clock reads of the C# class become parameters: `now` stands for
 * DateTime.Now when a birthdate is assigned, `today` for DateTime.Today when
 * the age is read.
 */
module GerenciadorAlunos {
  import opened Options
  import opened Dates

  /** string.IsNullOrEmpty: the reference is null or the string has no characters. */
  predicate IsNullOrEmpty(s: Option<string>)
  {
    s.None? || |s.value| == 0
  }

  /** The rule of the Nome setter: a null or empty value is ignored, any other replaces the name. */
  function AssignNome(current: Option<string>, value: Option<string>): (r: Option<string>)
    ensures !IsNullOrEmpty(value) ==> r == value
    ensures IsNullOrEmpty(value) ==> r == current
  {
    match value
    case None => current
    case Some(s) => if s == [] then current else value
  }

  /** The rule of the DataNascimento setter: only a value strictly earlier than `now` is stored. */
  function AssignDataNascimento(current: Date, value: Date, now: Date): (r: Date)
    ensures Before(value, now) ==> r == value
    ensures !Before(value, now) ==> r == current
  {
    if Before(value, now) then value else current
  }

  class Aluno {
    /** Backing field of Nome; `None` is the C# null a fresh object starts with. */
    var nome: Option<string>
    /** Matricula is init-only: nothing after construction can assign it. */
    const matricula: int
    /** Backing field of DataNascimento. */
    var dataNascimento: Date

    /** The name is null or a non-empty string: no path stores "". */
    ghost predicate Valid()
      reads this
    {
      nome.None? || nome.value != []
    }

    /**
     * The constructor runs the Nome and DataNascimento setters on its
     * arguments, so an invalid argument leaves the field default in place:
     * null for the name, DateTime.MinValue for the birthdate.
     */
    constructor (nome: Option<string>, matricula: int, dataNascimento: Date, now: Date)
      ensures Valid()
      ensures !IsNullOrEmpty(nome) ==> this.nome == nome
      ensures IsNullOrEmpty(nome) ==> this.nome == None
      ensures this.matricula == matricula
      ensures Before(dataNascimento, now) ==> this.dataNascimento == dataNascimento
      ensures !Before(dataNascimento, now) ==> this.dataNascimento == MinValue
    {
      this.nome := None;
      this.matricula := matricula;
      this.dataNascimento := MinValue;
      new;
      SetNome(nome);
      SetDataNascimento(dataNascimento, now);
    }

    /** The Nome setter. */
    method SetNome(value: Option<string>)
      requires Valid()
      modifies this
      ensures Valid()
      ensures nome == AssignNome(old(nome), value)
      ensures dataNascimento == old(dataNascimento)
    {
      if !IsNullOrEmpty(value) {
        nome := value;
      }
    }

    /** The DataNascimento setter, with `now` the clock reading it compares against. */
    method SetDataNascimento(value: Date, now: Date)
      requires Valid()
      modifies this
      ensures Valid()
      ensures dataNascimento == AssignDataNascimento(old(dataNascimento), value, now)
      ensures nome == old(nome)
    {
      if Before(value, now) {
        dataNascimento := value;
      }
    }

    /** The Idade getter: calendar year of `today` minus the birth year, month and day ignored. */
    function Idade(today: Date): (r: int)
      reads this
      ensures r + dataNascimento.year == today.year
      ensures r == CompletedYears(dataNascimento, today) + (if MonthDayAtMost(dataNascimento, today) then 0 else 1)
    {
      today.year - dataNascimento.year
    }
  }

  /**
   * The usual completed-years formula: the year difference, less one while
   * the birthday of the current year is still ahead. For a `today` on or
   * after the birth it counts the birthdays reached (CompletedYearsCounts);
   * before the birth it goes negative.
   */
  function CompletedYears(birth: Date, today: Date): (r: int)
  {
    today.year - birth.year - (if MonthDayAtMost(birth, today) then 0 else 1)
  }

  /** The k-th birthday, in year `birth.year + k`, has come by `today`. */
  predicate BirthdayReached(birth: Date, today: Date, k: int)
  {
    birth.year + k < today.year || (birth.year + k == today.year && MonthDayAtMost(birth, today))
  }

  /**
   * CompletedYears counts birthdays: the k-th birthday has come exactly when
   * k is at most CompletedYears, and the count is not negative unless `today`
   * comes before the birth.
   */
  lemma CompletedYearsCounts(birth: Date, today: Date, k: int)
    requires k >= 1
    ensures k <= CompletedYears(birth, today) <==> BirthdayReached(birth, today, k)
    ensures !Before(today, birth) ==> CompletedYears(birth, today) >= 0
  {
  }

  // ---------------------------------------------------------------------
  // Properties of single assignments

  /** Assigning the same name twice leaves the state of one assignment. */
  lemma AssignNomeIdempotent(current: Option<string>, value: Option<string>)
    ensures AssignNome(AssignNome(current, value), value) == AssignNome(current, value)
  {
  }

  /** Assigning the same birthdate twice against the same clock reading leaves the state of one assignment. */
  lemma AssignDataNascimentoIdempotent(current: Date, value: Date, now: Date)
    ensures AssignDataNascimento(AssignDataNascimento(current, value, now), value, now)
         == AssignDataNascimento(current, value, now)
  {
  }

  /**
   * Idempotence does not extend across clock readings: a date equal to the
   * clock reading is refused, since `<` is strict, and the same assignment
   * made at any later reading stores it.
   */
  lemma RefusedDateAcceptedLater(current: Date, now1: Date, now2: Date)
    requires Before(now1, now2)
    ensures AssignDataNascimento(current, now1, now1) == current
    ensures AssignDataNascimento(AssignDataNascimento(current, now1, now1), now1, now2) == now1
  {
  }

  // ---------------------------------------------------------------------
  // Properties of the age

  /** Idade depends only on the two years: moving either date inside its year changes nothing. */
  lemma IdadeIgnoresMonthAndDay(a: Aluno, b: Aluno, today1: Date, today2: Date)
    requires a.dataNascimento.year == b.dataNascimento.year
    requires today1.year == today2.year
    ensures a.Idade(today1) == b.Idade(today2)
  {
  }

  /**
   * Compared with the birthdays actually reached, Idade is exact once the
   * birthday of the current year has come and one year too high before it.
   */
  lemma IdadeVersusCompletedYears(a: Aluno, today: Date)
    ensures a.Idade(today) == CompletedYears(a.dataNascimento, today) <==> MonthDayAtMost(a.dataNascimento, today)
    ensures a.Idade(today) == CompletedYears(a.dataNascimento, today) + 1 <==> !MonthDayAtMost(a.dataNascimento, today)
  {
  }

  /** Born on 31 December of one year and observed on 1 January of the next: Idade is 1, no birthday reached. */
  lemma IdadeNewYearExample(a: Aluno)
    requires a.dataNascimento == DateTime(2020, 12, 31, 0)
    ensures a.Idade(DateTime(2021, 1, 1, 0)) == 1
    ensures CompletedYears(a.dataNascimento, DateTime(2021, 1, 1, 0)) == 0
  {
  }

  /** A birthdate accepted against a clock reading in the same year as `today` or earlier gives a non-negative age. */
  lemma IdadeNonNegative(a: Aluno, now: Date, today: Date)
    requires Before(a.dataNascimento, now)
    requires now.year <= today.year
    ensures a.Idade(today) >= 0
  {
  }

  // ---------------------------------------------------------------------
  // Properties of a history of assignments

  /** The name after the assignments `values`, applied in order, starting from `init`. */
  function NomeAfter(init: Option<string>, values: seq<Option<string>>): (r: Option<string>)
  {
    if values == [] then init
    else AssignNome(NomeAfter(init, values[..|values| - 1]), values[|values| - 1])
  }

  /** Assignments of null or empty names at the end of a history change nothing. */
  lemma {:induction false} NomeAfterRejectedSuffix(init: Option<string>, values: seq<Option<string>>, k: nat)
    requires k <= |values|
    requires forall j :: k <= j < |values| ==> IsNullOrEmpty(values[j])
    ensures NomeAfter(init, values) == NomeAfter(init, values[..k])
  {
    if k < |values| {
      var n := |values| - 1;
      assert values[..n][..k] == values[..k];
      NomeAfterRejectedSuffix(init, values[..n], k);
    } else {
      assert values[..k] == values;
    }
  }

  /** If every value assigned is null or empty, the initial name survives. */
  lemma NomeAfterNoneAccepted(init: Option<string>, values: seq<Option<string>>)
    requires forall i :: 0 <= i < |values| ==> IsNullOrEmpty(values[i])
    ensures NomeAfter(init, values) == init
  {
    NomeAfterRejectedSuffix(init, values, 0);
  }

  /** The last non-null, non-empty value assigned is the name. */
  lemma NomeAfterIsLastAccepted(init: Option<string>, values: seq<Option<string>>, k: nat)
    requires k < |values| && !IsNullOrEmpty(values[k])
    requires forall j :: k < j < |values| ==> IsNullOrEmpty(values[j])
    ensures NomeAfter(init, values) == values[k]
  {
    NomeAfterRejectedSuffix(init, values, k + 1);
    var upTo := values[..k + 1];
    assert upTo[|upTo| - 1] == values[k];
    assert NomeAfter(init, upTo) == AssignNome(NomeAfter(init, upTo[..k]), values[k]);
  }

  /** Once a valid name is stored it is never lost, and the name is always the initial one or a valid one. */
  lemma {:induction false} NomeNeverLost(init: Option<string>, values: seq<Option<string>>)
    ensures !IsNullOrEmpty(init) ==> !IsNullOrEmpty(NomeAfter(init, values))
    ensures NomeAfter(init, values) == init || !IsNullOrEmpty(NomeAfter(init, values))
  {
    if values != [] {
      NomeNeverLost(init, values[..|values| - 1]);
    }
  }

  /** One assignment to DataNascimento: the value and the clock reading it is compared with. */
  datatype BirthAssignment = BirthAssignment(value: Date, now: Date)

  /** The birthdate after the assignments `steps`, applied in order, starting from `init`. */
  function DataNascimentoAfter(init: Date, steps: seq<BirthAssignment>): (r: Date)
  {
    if steps == [] then init
    else
      var last := steps[|steps| - 1];
      AssignDataNascimento(DataNascimentoAfter(init, steps[..|steps| - 1]), last.value, last.now)
  }

  /** The setter stores the value of this assignment: it is strictly earlier than its clock reading. */
  predicate Accepted(step: BirthAssignment)
  {
    Before(step.value, step.now)
  }

  /** Refused assignments at the end of a history change nothing. */
  lemma {:induction false} DataNascimentoAfterRejectedSuffix(init: Date, steps: seq<BirthAssignment>, k: nat)
    requires k <= |steps|
    requires forall j :: k <= j < |steps| ==> !Accepted(steps[j])
    ensures DataNascimentoAfter(init, steps) == DataNascimentoAfter(init, steps[..k])
  {
    if k < |steps| {
      var n := |steps| - 1;
      assert steps[..n][..k] == steps[..k];
      DataNascimentoAfterRejectedSuffix(init, steps[..n], k);
    } else {
      assert steps[..k] == steps;
    }
  }

  /** If no assignment was accepted, the initial birthdate survives. */
  lemma DataNascimentoAfterNoneAccepted(init: Date, steps: seq<BirthAssignment>)
    requires forall i :: 0 <= i < |steps| ==> !Accepted(steps[i])
    ensures DataNascimentoAfter(init, steps) == init
  {
    DataNascimentoAfterRejectedSuffix(init, steps, 0);
  }

  /** The value of the last accepted assignment is the birthdate. */
  lemma DataNascimentoAfterIsLastAccepted(init: Date, steps: seq<BirthAssignment>, k: nat)
    requires k < |steps| && Accepted(steps[k])
    requires forall j :: k < j < |steps| ==> !Accepted(steps[j])
    ensures DataNascimentoAfter(init, steps) == steps[k].value
  {
    DataNascimentoAfterRejectedSuffix(init, steps, k + 1);
    var upTo := steps[..k + 1];
    assert upTo[|upTo| - 1] == steps[k];
    assert DataNascimentoAfter(init, upTo)
        == AssignDataNascimento(DataNascimentoAfter(init, upTo[..k]), steps[k].value, steps[k].now);
  }

  /**
   * With a clock that never runs backwards, the stored birthdate is either
   * the initial one or strictly earlier than the latest clock reading.
   */
  lemma {:induction false} DataNascimentoStaysInPast(init: Date, steps: seq<BirthAssignment>)
    requires |steps| > 0
    requires forall i, j :: 0 <= i < j < |steps| ==> !Before(steps[j].now, steps[i].now)
    ensures DataNascimentoAfter(init, steps) == init ||
            Before(DataNascimentoAfter(init, steps), steps[|steps| - 1].now)
  {
    var n := |steps| - 1;
    if !Accepted(steps[n]) && n > 0 {
      var prefix := steps[..n];
      DataNascimentoStaysInPast(init, prefix);
      var r := DataNascimentoAfter(init, prefix);
      assert !Before(steps[n].now, steps[n - 1].now);
      BeforeIsStrictTotalOrder(r, steps[n - 1].now, steps[n].now);
    }
  }
}
