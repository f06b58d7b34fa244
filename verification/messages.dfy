/** The validation messages, as data, and the text each one is shown as. */
module Messages {
  import opened Wrappers
  import opened JsNumber
  import opened StringFormat
  import opened Dates

  datatype DateField = StartDate | EndDate

  datatype Message =
    | NoEvents
    | MissingColumn(column: string)
    | DateMessage(line: nat, field: DateField, problem: DateProblem)
    | InvalidCode(line: nat, code: string, suggestion: Option<string>)

  // The message templates: the program's text around each placeholder.

  const StartContextText: string := ": Start Date: "
  const EndContextText: string := ": End Date: "
  const MissingColumnText: string := "You are missing the column "
  const TooManyPartsText: string := "Date has too many parts, " + "it was "
  const BadFormatText: string := "Date must be in the format " + "YYYY/MM/DD but was "
  const SuggestionText1: string := " (Did you mean to use the code "
  const InvalidCodeText: string := ": Location has a " + "invalid country code: "

  const StartContextTemplate: string := "Line " + "{0}" + StartContextText
  const EndContextTemplate: string := "Line " + "{0}" + EndContextText
  const MissingColumnTemplate: string := MissingColumnText + "{0}"
  const TooManyPartsTemplate: string := TooManyPartsText + "{0}"
  const BadFormatTemplate: string := BadFormatText + "{0}"
  const SuggestionTemplate: string := SuggestionText1 + "{0}" + "?)"
  const InvalidCodeTemplate: string := "Line " + "{0}" + (InvalidCodeText + "{1}" + (" " + "{2}"))

  /** The `context` prefix passed to `validateDate`. */
  function Context(line: nat, field: DateField): string
  {
    Format(if field.StartDate? then StartContextTemplate else EndContextTemplate, [NatToString(line)])
  }

  function SuggestionText(suggestion: Option<string>): string
  {
    match suggestion
    case None => ""
    case Some(code) => Format(SuggestionTemplate, [code])
  }

  /** The text after the line number of a date message's context. */
  function ContextText(field: DateField): string
  {
    if field.StartDate? then StartContextText else EndContextText
  }

  /** What a date message says about the date, after its context. */
  function ProblemText(p: DateProblem): string
  {
    match p
    case Missing => "Date is missing"
    case TooManyParts(d) => TooManyPartsText + d
    case BadFormat(d) => BadFormatText + d
  }

  /** The line of text the error display shows for a message: every
      placeholder of its template filled with the message's own values. */
  function Render(m: Message): (r: string)
    ensures m.MissingColumn? ==> r == MissingColumnText + m.column
    ensures m.DateMessage? ==> r == "Line " + NatToString(m.line) + ContextText(m.field) + ProblemText(m.problem)
    ensures m.InvalidCode? ==>
              r == "Line " + NatToString(m.line) + (InvalidCodeText + m.code + (" " + SuggestionText(m.suggestion)))
  {
    match m
    case NoEvents => "You need at least one event!"
    case MissingColumn(c) =>
      FormatOneSlot(MissingColumnText, "", [c]);
      assert MissingColumnTemplate == MissingColumnText + "{0}" + "";
      Format(MissingColumnTemplate, [c])
    case DateMessage(line, field, problem) =>
      RenderContext(line, field);
      Context(line, field) + DateProblemText(problem)
    case InvalidCode(line, code, suggestion) =>
      FormatThreeSlots("Line ", InvalidCodeText, " ", [NatToString(line), code, SuggestionText(suggestion)]);
      Format(InvalidCodeTemplate, [NatToString(line), code, SuggestionText(suggestion)])
  }

  /** The problem part of a date message, through its template. */
  function DateProblemText(p: DateProblem): (r: string)
    ensures r == ProblemText(p)
  {
    match p
    case Missing => "Date is missing"
    case TooManyParts(d) =>
      FormatOneSlot(TooManyPartsText, "", [d]);
      assert TooManyPartsTemplate == TooManyPartsText + "{0}" + "";
      Format(TooManyPartsTemplate, [d])
    case BadFormat(d) =>
      FormatOneSlot(BadFormatText, "", [d]);
      assert BadFormatTemplate == BadFormatText + "{0}" + "";
      Format(BadFormatTemplate, [d])
  }

  lemma Slots()
    ensures ['{', DigitChar(0), '}'] == "{0}"
    ensures ['{', DigitChar(1), '}'] == "{1}"
    ensures ['{', DigitChar(2), '}'] == "{2}"
  {
  }

  /** One placeholder between two placeholder-free texts. */
  lemma FormatOneSlot(p0: string, p1: string, args: seq<string>)
    requires '{' !in p0 && '{' !in p1
    requires |args| >= 1
    ensures Format(p0 + "{0}" + p1, args) == p0 + args[0] + p1
  {
    Slots();
    FormatPlaceholder(p0, 0, p1, args);
  }

  /** Placeholders 0, 1 and 2, in that order, around placeholder-free texts. */
  lemma FormatThreeSlots(p0: string, p1: string, p2: string, args: seq<string>)
    requires '{' !in p0 && '{' !in p1 && '{' !in p2
    requires |args| >= 3
    ensures Format(p0 + "{0}" + (p1 + "{1}" + (p2 + "{2}")), args) == p0 + args[0] + (p1 + args[1] + (p2 + args[2]))
  {
    Slots();
    var q1 := p2 + "{2}";
    var q0 := p1 + "{1}" + q1;
    FormatPlaceholder(p2, 2, "", args);
    assert q1 == p2 + "{2}" + "";
    assert Format(q1, args) == p2 + args[2];
    FormatPlaceholder(p1, 1, q1, args);
    assert Format(q0, args) == p1 + args[1] + (p2 + args[2]);
    FormatPlaceholder(p0, 0, q0, args);
  }

  /** A date message's context: the line number after "Line ", then the
      column's name. */
  lemma RenderContext(line: nat, field: DateField)
    ensures Context(line, field) == "Line " + NatToString(line) + ContextText(field)
  {
    if field.StartDate? {
      FormatOneSlot("Line ", StartContextText, [NatToString(line)]);
    } else {
      FormatOneSlot("Line ", EndContextText, [NatToString(line)]);
    }
  }

  lemma RenderSuggestion(code: string)
    ensures SuggestionText(Some(code)) == SuggestionText1 + code + "?)"
  {
    FormatOneSlot(SuggestionText1, "?)", [code]);
  }
}
