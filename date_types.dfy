/** The date type handler's own decisions around its date-format library:
    empty text is null, a parse must consume the whole text without error,
    null formats to null, the default format stands in for a missing
    pattern, and a pattern is validated when it is set. */
module DateTypes {
  import opened Base

  /** A `java.util.Date`: milliseconds since the epoch. */
  type Date = int

  /** The format `createDateFormat` builds: the default date-time format,
      or a format built from a pattern. */
  datatype FormatSource = DefaultFormat | PatternFormat(pattern: string)

  /** The state a `ParsePosition` is left in by a parse: the index reached
      and the index of the error, -1 when there was none. */
  datatype ParseReport = ParseReport(date: Option<Date>, index: int, errorIndex: int)

  /** The date-format library, whose pattern language and calendar rules
      are not modelled:
      - `checkPattern(p)` is `None` when a format can be built from `p`,
        and otherwise the message of the `IllegalArgumentException` thrown;
      - `parse(f, lenient, text)` parses `text` from index 0 with format `f`
        set to the given leniency;
      - `format(f, d)` renders `d` with format `f`. */
  datatype DateLibrary = DateLibrary(
    checkPattern: string -> Option<string>,
    parse: (FormatSource, bool, string) -> ParseReport,
    format: (FormatSource, Date) -> string)

  datatype ConversionError =
    | TypeConversion(message: string)
    | IllegalArgument(message: string)

  const InvalidDate := "Invalid date"

  function InvalidPatternMessage(pattern: string, reason: string): string {
    "Invalid date format pattern '" + pattern + "': " + reason
  }

  /** True when the report says the whole of `text` was parsed without error. */
  predicate ParsedWhole(report: ParseReport, text: string) {
    report.errorIndex < 0 && report.index == |text|
  }

  /** A type handler for dates, configured with an optional pattern and a
      leniency flag. */
  class AbstractDateTypeHandler {
    var pattern: Option<string>
    var lenient: bool

    constructor ()
      ensures pattern == None && !lenient
    {
      pattern := None;
      lenient := false;
    }

    /** Stores `pattern` as it is: it is not validated here. */
    constructor WithPattern(pattern: Option<string>)
      ensures this.pattern == pattern && !lenient
    {
      this.pattern := pattern;
      lenient := false;
    }

    /** The format used for both directions: the default one when no
        pattern is set, otherwise one built from the pattern, which throws
        when the pattern is invalid. */
    function CreateDateFormat(lib: DateLibrary): (r: Result<FormatSource, ConversionError>)
      reads this
      ensures pattern.None? ==> r.Ok?
      ensures r.Ok? ==> (r.value == DefaultFormat <==> pattern.None?)
      ensures r.Ok? && pattern.Some? ==> r.value.pattern == pattern.value
      ensures r.Err? <==> pattern.Some? && lib.checkPattern(pattern.value).Some?
      ensures r.Err? ==> r.error == IllegalArgument(lib.checkPattern(pattern.value).value)
    {
      match pattern
      case None => Ok(DefaultFormat)
      case Some(p) =>
        match lib.checkPattern(p)
        case None => Ok(PatternFormat(p))
        case Some(reason) => Err(IllegalArgument(reason))
    }

    /** Parses `text` into a date: `null` for empty text, otherwise the
        library's result, which must cover the whole text without error. */
    function ParseDate(text: string, lib: DateLibrary): (r: Result<Option<Date>, ConversionError>)
      reads this
      ensures r.Ok? && r.value.Some? ==> text != ""
      ensures r.Err? && text != "" && CreateDateFormat(lib).Ok? ==> r.error == TypeConversion(InvalidDate)
    {
      if text == "" then Ok(None)
      else
        match CreateDateFormat(lib)
        case Err(e) => Err(e)
        case Ok(format) =>
          var report := lib.parse(format, lenient, text);
          if report.errorIndex >= 0 || report.index != |text| then Err(TypeConversion(InvalidDate))
          else Ok(report.date)
    }

    /** Formats `date`: `null` for `null`, otherwise the library's text. */
    function FormatDate(date: Option<Date>, lib: DateLibrary): (r: Result<Option<string>, ConversionError>)
      reads this
      ensures date.None? ==> r == Ok(None)
      ensures date.Some? ==> (r.Ok? <==> CreateDateFormat(lib).Ok?)
      ensures date.Some? && r.Ok? ==>
                r.value == Some(lib.format(CreateDateFormat(lib).value, date.value))
    {
      match date
      case None => Ok(None)
      case Some(d) =>
        match CreateDateFormat(lib)
        case Err(e) => Err(e)
        case Ok(format) => Ok(Some(lib.format(format, d)))
    }

    function GetPattern(): Option<string>
      reads this
    {
      pattern
    }

    /** Validates and stores `pattern`; an invalid pattern is rejected with
        an `IllegalArgumentException` naming it, and nothing changes. */
    method SetPattern(pattern: Option<string>, lib: DateLibrary) returns (r: Result<(), ConversionError>)
      modifies this`pattern
      ensures r.Ok? <==> pattern.None? || lib.checkPattern(pattern.value).None?
      ensures r.Ok? ==> GetPattern() == pattern && CreateDateFormat(lib).Ok?
      ensures r.Err? ==> GetPattern() == old(GetPattern())
      ensures r.Err? ==> r.error == IllegalArgument(
                InvalidPatternMessage(pattern.value, lib.checkPattern(pattern.value).value))
    {
      if pattern.Some? {
        var problem := lib.checkPattern(pattern.value);
        if problem.Some? {
          return Err(IllegalArgument(InvalidPatternMessage(pattern.value, problem.value)));
        }
      }
      this.pattern := pattern;
      r := Ok(());
    }

    function IsLenient(): bool
      reads this
    {
      lenient
    }

    method SetLenient(lenient: bool)
      modifies this`lenient
      ensures IsLenient() == lenient && GetPattern() == old(GetPattern())
    {
      this.lenient := lenient;
    }
  }

  /** Empty text is `null` whatever the library would say: the format is
      not consulted. */
  lemma EmptyTextIsNull(h: AbstractDateTypeHandler, lib: DateLibrary)
    ensures h.ParseDate("", lib) == Ok(None)
  {
  }

  /** A parse succeeds exactly when the library, given the handler's own
      leniency, reports no error and an index at the end of the text; the
      date returned is the library's. */
  lemma ParseSucceedsOnlyOnWholeText(h: AbstractDateTypeHandler, text: string, lib: DateLibrary)
    requires text != "" && h.CreateDateFormat(lib).Ok?
    ensures var report := lib.parse(h.CreateDateFormat(lib).value, h.lenient, text);
            var r := h.ParseDate(text, lib);
            && (r.Ok? <==> ParsedWhole(report, text))
            && (r.Ok? ==> r.value == report.date)
  {
  }

  /** A valid prefix followed by anything is rejected: stopping before the
      end of the text is a type-conversion error even with no error index. */
  lemma TrailingTextRejected(h: AbstractDateTypeHandler, text: string, lib: DateLibrary)
    requires text != "" && h.CreateDateFormat(lib).Ok?
    requires lib.parse(h.CreateDateFormat(lib).value, h.lenient, text).index < |text|
    ensures h.ParseDate(text, lib) == Err(TypeConversion(InvalidDate))
  {
  }

  /** Parsing depends on the library only through the one parse it makes,
      with the chosen format and the handler's leniency. */
  lemma ParseUsesHandlerLeniency(h: AbstractDateTypeHandler, text: string, lib1: DateLibrary, lib2: DateLibrary)
    requires lib1.checkPattern == lib2.checkPattern
    requires h.CreateDateFormat(lib1).Ok? ==>
               lib1.parse(h.CreateDateFormat(lib1).value, h.lenient, text)
               == lib2.parse(h.CreateDateFormat(lib1).value, h.lenient, text)
    ensures h.ParseDate(text, lib1) == h.ParseDate(text, lib2)
  {
  }

  /** A pattern given to the constructor is not validated, so an invalid one
      surfaces only when a non-empty text is parsed or a date formatted. */
  lemma UnvalidatedPatternFailsOnUse(h: AbstractDateTypeHandler, text: string, date: Date, lib: DateLibrary)
    requires h.pattern.Some? && lib.checkPattern(h.pattern.value).Some?
    requires text != ""
    ensures h.ParseDate(text, lib) == Err(IllegalArgument(lib.checkPattern(h.pattern.value).value))
    ensures h.FormatDate(Some(date), lib) == Err(IllegalArgument(lib.checkPattern(h.pattern.value).value))
  {
  }
}
