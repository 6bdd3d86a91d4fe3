/** The administrator's question form: its validation, the clean-up of the
    options on submit (blank options dropped, the correct option re-indexed),
    and the option editing the form offers (add, remove, change one). */
module QuestionForm {
  import opened Collections
  import opened MockData

  /** The characters `String.prototype.trim` removes, restricted to ASCII. */
  predicate IsWhitespace(c: char) {
    c == ' ' || c == '\t' || c == '\n' || c == '\r' || c == '\U{000B}' || c == '\U{000C}'
  }

  /** `s.trim() === ''`. */
  predicate IsBlank(s: string) {
    forall i :: 0 <= i < |s| ==> IsWhitespace(s[i])
  }

  function NonBlank(s: string): bool { !IsBlank(s) }

  function SameText(t: string): string -> bool { (o: string) => o == t }

  /** `options.filter(opt => opt.trim() !== '')`. */
  function FilledOptions(options: seq<string>): (r: seq<string>)
    ensures |r| <= |options|
    ensures forall i :: 0 <= i < |r| ==> r[i] in options && !IsBlank(r[i])
    ensures forall i :: 0 <= i < |options| && !IsBlank(options[i]) ==> options[i] in r
  {
    Filter(options, NonBlank)
  }

  /** The filled options are exactly the non-blank options, each as often as
      it occurs, in their original order. */
  lemma FilledOptionsExact(options: seq<string>, o: string)
    ensures SubsequenceOf(FilledOptions(options), options)
    ensures multiset(FilledOptions(options))[o] == if IsBlank(o) then 0 else multiset(options)[o]
  {
    FilterIsSubsequence(options, NonBlank);
    FilterCounts(options, NonBlank, o);
  }

  /** The form fields an error message can be attached to. */
  datatype Field = Title | Content | Options | CorrectOption

  const TITLE_REQUIRED: string := "Title is required"
  const CONTENT_REQUIRED: string := "Question content is required"
  const TOO_FEW_OPTIONS: string := "At least 2 options are required"
  const NO_CORRECT_OPTION: string := "Please select a correct answer"

  /** validate: the error messages the form shows, one per failed rule. An
      out-of-range correct option reads as undefined text and raises none. */
  function Validate(title: string, content: string, options: seq<string>,
                    correctOption: Option<int>): (errors: map<Field, string>)
    ensures Title in errors <==> IsBlank(title)
    ensures Content in errors <==> IsBlank(content)
    ensures Options in errors <==> |FilledOptions(options)| < 2
    ensures CorrectOption in errors <==>
              correctOption.None? ||
              (0 <= correctOption.value < |options| && IsBlank(options[correctOption.value]))
    ensures errors.Keys <= {Title, Content, Options, CorrectOption}
    ensures Title in errors ==> errors[Title] == TITLE_REQUIRED
    ensures Content in errors ==> errors[Content] == CONTENT_REQUIRED
    ensures Options in errors ==> errors[Options] == TOO_FEW_OPTIONS
    ensures CorrectOption in errors ==> errors[CorrectOption] == NO_CORRECT_OPTION
  {
    var e0: map<Field, string> := map[];
    var e1 := if IsBlank(title) then e0[Title := TITLE_REQUIRED] else e0;
    var e2 := if IsBlank(content) then e1[Content := CONTENT_REQUIRED] else e1;
    var e3 := if |FilledOptions(options)| < 2 then e2[Options := TOO_FEW_OPTIONS] else e2;
    var missing := correctOption.None? ||
                   (0 <= correctOption.value < |options| && IsBlank(options[correctOption.value]));
    if missing then e3[CorrectOption := NO_CORRECT_OPTION] else e3
  }

  /** The form validates exactly when no rule fails. */
  predicate IsValid(title: string, content: string, options: seq<string>, correctOption: Option<int>) {
    Validate(title, content, options, correctOption).Keys == {}
  }

  lemma IsValidIff(title: string, content: string, options: seq<string>, correctOption: Option<int>)
    ensures IsValid(title, content, options, correctOption) <==>
      && !IsBlank(title) && !IsBlank(content)
      && |FilledOptions(options)| >= 2
      && correctOption.Some?
      && !(0 <= correctOption.value < |options| && IsBlank(options[correctOption.value]))
  {
    var errors := Validate(title, content, options, correctOption);
    if !IsValid(title, content, options, correctOption) {
      var k :| k in errors.Keys;
    }
  }

  /** The correct option re-indexed into the filled options: the first filled
      option with the selected option's text, -1 when there is none. */
  function AdjustedCorrectOption(options: seq<string>, correctOption: int): (r: int)
    ensures -1 <= r < |FilledOptions(options)|
    ensures r >= 0 ==> 0 <= correctOption < |options| && FilledOptions(options)[r] == options[correctOption]
    ensures r == -1 <==> !(0 <= correctOption < |options|) || IsBlank(options[correctOption])
  {
    if 0 <= correctOption < |options| then
      var f := FilledOptions(options);
      var text := options[correctOption];
      assert !IsBlank(text) ==> exists j :: 0 <= j < |f| && SameText(text)(f[j]) by {
        if !IsBlank(text) {
          assert text in f;
          var j :| 0 <= j < |f| && f[j] == text;
          assert SameText(text)(f[j]);
        }
      }
      FindIndex(f, SameText(text))
    else -1
  }

  /** handleSubmit: what the form passes on, or nothing when validation fails. */
  function Submission(title: string, content: string, options: seq<string>,
                      correctOption: Option<int>): (r: Option<QuestionFields>)
    ensures r.Some? <==> IsValid(title, content, options, correctOption)
    ensures r.Some? ==>
      && r.value.title == title && r.value.content == content
      && |r.value.options| >= 2
      && (forall i :: 0 <= i < |r.value.options| ==> !IsBlank(r.value.options[i]))
      && r.value.correctOption.Some? && -1 <= r.value.correctOption.value < |r.value.options|
  {
    IsValidIff(title, content, options, correctOption);
    if !IsValid(title, content, options, correctOption) then None
    else Some(QuestionFields(title, content, FilledOptions(options),
                             Some(AdjustedCorrectOption(options, correctOption.value))))
  }

  /** After validation, an in-range correct option is re-indexed to a filled
      option with the same text, so the submitted question is well formed. */
  lemma SubmissionKeepsCorrectText(title: string, content: string, options: seq<string>, correctOption: Option<int>)
    requires IsValid(title, content, options, correctOption)
    requires correctOption.Some? ==> 0 <= correctOption.value < |options|
    ensures Submission(title, content, options, correctOption).Some?
    ensures var f := Submission(title, content, options, correctOption).value;
      && f.title == title && f.content == content && f.options == FilledOptions(options)
      && |f.options| >= 2
      && f.correctOption.Some? && 0 <= f.correctOption.value < |f.options|
      && f.options[f.correctOption.value] == options[correctOption.value]
  {
    IsValidIff(title, content, options, correctOption);
    var co := correctOption.value;
    assert NonBlank(options[co]);
    assert options[co] in FilledOptions(options);
    var j :| 0 <= j < |FilledOptions(options)| && FilledOptions(options)[j] == options[co];
    assert SameText(options[co])(FilledOptions(options)[j]);
  }

  /** Validation lets a correct option beyond the options through, and the
      submitted index is then -1. */
  lemma OutOfRangeCorrectOptionSubmitsMinusOne(title: string, content: string, options: seq<string>, co: int)
    requires IsValid(title, content, options, Some(co))
    requires !(0 <= co < |options|)
    ensures Submission(title, content, options, Some(co)).value.correctOption == Some(-1)
  {
  }

  /** A concrete form that shows it: two filled options, correct option 2. */
  lemma OutOfRangeExample()
    ensures IsValid("Q", "Which?", ["A", "B"], Some(2))
    ensures Submission("Q", "Which?", ["A", "B"], Some(2)).value.correctOption == Some(-1)
  {
    assert !IsWhitespace("Q"[0]) && !IsWhitespace("Which?"[0]);
    assert !IsWhitespace("A"[0]) && !IsWhitespace("B"[0]);
    assert FilledOptions(["A", "B"]) == ["A", "B"] by {
      assert ["A", "B"][1..] == ["B"];
      assert ["B"][1..] == [];
    }
    IsValidIff("Q", "Which?", ["A", "B"], Some(2));
  }

  /** `s.splice(start, 1)` on a copy: a negative start counts from the end,
      a start past the end removes nothing. */
  function SpliceOne<T>(s: seq<T>, start: int): (r: seq<T>)
    ensures 0 <= start < |s| ==>
      |r| == |s| - 1 && (forall j :: 0 <= j < start ==> r[j] == s[j])
                     && (forall j :: start <= j < |r| ==> r[j] == s[j + 1])
    ensures start >= |s| ==> r == s
  {
    var k := if start >= 0 then start else if |s| + start < 0 then 0 else |s| + start;
    if k < |s| then s[..k] + s[k + 1..] else s
  }

  /** The correct-option adjustment of removeOption. */
  function AdjustForRemoval(correctOption: Option<int>, index: int): (r: Option<int>)
    ensures r.None? <==> correctOption.None? || correctOption.value == index
    ensures r.Some? && correctOption.value < index ==> r == correctOption
    ensures r.Some? && correctOption.value > index ==> index <= r.value && r.value + 1 == correctOption.value
  {
    if correctOption.None? then None
    else if index == correctOption.value then None
    else if index < correctOption.value then Some(correctOption.value - 1)
    else correctOption
  }

  /** removeOption on (options, correctOption): nothing happens while at most
      two options remain. */
  function RemovedOption(options: seq<string>, correctOption: Option<int>, index: int): (r: (seq<string>, Option<int>))
    ensures |options| <= 2 ==> r == (options, correctOption)
    ensures |options| > 2 && 0 <= index < |options| ==>
      r.0 == options[..index] + options[index + 1..] && r.1 == AdjustForRemoval(correctOption, index)
  {
    if |options| <= 2 then (options, correctOption)
    else (SpliceOne(options, index), AdjustForRemoval(correctOption, index))
  }

  /** Removing an option keeps the selection on the same option: it is
      cleared when that option is removed, and otherwise still names an option
      with the same text. Other options keep their order. */
  lemma RemoveOptionKeepsSelection(options: seq<string>, correctOption: Option<int>, index: int)
    requires |options| > 2 && 0 <= index < |options|
    requires correctOption.Some? ==> 0 <= correctOption.value < |options|
    ensures var (opts, co) := RemovedOption(options, correctOption, index);
      && |opts| == |options| - 1
      && opts == options[..index] + options[index + 1..]
      && (co.None? <==> correctOption.None? || correctOption.value == index)
      && (co.Some? ==> 0 <= co.value < |opts| && opts[co.value] == options[correctOption.value])
  {
    var (opts, co) := RemovedOption(options, correctOption, index);
    assert opts == options[..index] + options[index + 1..];
  }

  /** With at most two options, removal changes nothing. */
  lemma RemoveOptionFloor(options: seq<string>, correctOption: Option<int>, index: int)
    requires |options| <= 2
    ensures RemovedOption(options, correctOption, index) == (options, correctOption)
  {
  }

  class FormState {
    var title: string
    var content: string
    var options: seq<string>
    var correctOption: Option<int>
    var errors: map<Field, string>

    /** The form opened on an existing question, or empty with two blank options. */
    constructor (initialData: Option<Question>)
      ensures initialData.None? ==>
        title == "" && content == "" && options == ["", ""] && correctOption.None?
      ensures initialData.Some? ==>
        && title == initialData.value.title && content == initialData.value.content
        && options == initialData.value.options && correctOption == initialData.value.correctOption
      ensures errors == map[]
    {
      if initialData.None? {
        title, content, options, correctOption := "", "", ["", ""], None;
      } else {
        var q := initialData.value;
        title, content, options, correctOption := q.title, q.content, q.options, q.correctOption;
      }
      errors := map[];
    }

    /** addOption: one blank option more at the end. */
    method AddOption()
      modifies this
      ensures options == old(options) + [""]
      ensures title == old(title) && content == old(content) && correctOption == old(correctOption)
      ensures errors == old(errors)
    {
      var newOptions := options;
      newOptions := newOptions + [""];
      options := newOptions;
    }

    /** removeOption: the copy of the options is spliced and the correct option adjusted. */
    method RemoveOption(index: int)
      modifies this
      ensures (options, correctOption) == RemovedOption(old(options), old(correctOption), index)
      ensures title == old(title) && content == old(content) && errors == old(errors)
    {
      if |options| <= 2 {
        return;
      }
      var newOptions := options;
      newOptions := SpliceOne(newOptions, index);
      options := newOptions;
      if correctOption.Some? {
        if index == correctOption.value {
          correctOption := None;
        } else if index < correctOption.value {
          correctOption := Some(correctOption.value - 1);
        }
      }
    }

    /** updateOption: the option at `index` takes the new text; nothing else changes. */
    method UpdateOption(index: int, value: string)
      requires 0 <= index < |options|
      modifies this
      ensures |options| == |old(options)| && options[index] == value
      ensures forall j :: 0 <= j < |options| && j != index ==> options[j] == old(options)[j]
      ensures title == old(title) && content == old(content) && correctOption == old(correctOption)
      ensures errors == old(errors)
    {
      var newOptions := options;
      newOptions := newOptions[index := value];
      options := newOptions;
    }

    /** handleSubmit: validation records its messages; when it passes, the
        cleaned-up fields are what the form hands to its caller. */
    method HandleSubmit() returns (submitted: Option<QuestionFields>)
      modifies this`errors
      ensures errors == Validate(title, content, options, correctOption)
      ensures submitted == Submission(title, content, options, correctOption)
    {
      errors := Validate(title, content, options, correctOption);
      if errors.Keys != {} {
        return None;
      }
      var filteredOptions := FilledOptions(options);
      var adjusted := AdjustedCorrectOption(options, correctOption.value);
      submitted := Some(QuestionFields(title, content, filteredOptions, Some(adjusted)));
    }
  }
}
