/**
 * `extractTel(path, options)` of index.js: read the file at `path`, then
 * either list the phone numbers in its text (`onlyNumbers`) or fold its
 * lines into contact records. Reading the file is a parameter here: `read`
 * is what `readFile(path)` settles with, a text or the error it rejects with.
 */
module VcfTelExtractor {
  import opened Wrappers
  import opened JsText
  import opened RegexScan
  import opened ContactRecords

  /** The options object; an absent `fields` property is `None`, a truthy flag `true`. */
  datatype Options = Options(fields: Option<seq<string>>, onlyNumbers: bool, prefix: bool)

  /** The default parameter, used when no options object is passed at all. */
  const DefaultOptions: Options := Options(Some([]), false, false)

  /** What the promise resolves with: numbers in numbers mode, contacts otherwise. */
  datatype Outcome = Numbers(numbers: seq<string>) | Records(contacts: seq<Record>)

  /** What the promise rejects with. */
  datatype Error =
    | MissingPath(message: string)  // no path, before anything is read
    | ReadFailed(cause: string)     // the error `readFile` rejects with, passed on as it is
    | TypeError(crash: Crash)       // thrown by the line loop, caught and passed on

  const PathRequired: string := "Path is a required argument"

  /** What `!/^3$|^0$/.test(match)` rejects: exactly the strings `"3"` and `"0"`. */
  predicate Stray(m: string) {
    m == "3" || m == "0"
  }

  /** `matches.filter(match => !/^3$|^0$/.test(match))` */
  function DropStrays(ms: seq<string>): (r: seq<string>)
    ensures |r| <= |ms|
    ensures forall k :: 0 <= k < |r| ==> !Stray(r[k])
    ensures forall m :: m in r <==> m in ms && !Stray(m)
    ensures |ms| == 1 ==> r == if Stray(ms[0]) then [] else ms
  {
    if ms == [] then []
    else if Stray(ms[0]) then DropStrays(ms[1..])
    else [ms[0]] + DropStrays(ms[1..])
  }

  /** The filter removes nothing from a list that holds neither `"3"` nor `"0"`. */
  lemma {:induction false} DropStraysNone(ms: seq<string>)
    requires forall k :: 0 <= k < |ms| ==> !Stray(ms[k])
    ensures DropStrays(ms) == ms
  {
    if ms != [] {
      DropStraysNone(ms[1..]);
    }
  }

  /** The filter works match by match: filtering a concatenation filters each part, keeping their order. */
  lemma {:induction false} DropStraysAppend(a: seq<string>, b: seq<string>)
    ensures DropStrays(a + b) == DropStrays(a) + DropStrays(b)
  {
    if a != [] {
      assert (a + b)[0] == a[0] && (a + b)[1..] == a[1..] + b;
      DropStraysAppend(a[1..], b);
    } else {
      assert a + b == b;
    }
  }

  /** `options.prefix ? /(\+[0-9]{1,15})\b/g : /([0-9]{9,15})\b/g` */
  function NumberPattern(prefix: bool): Pattern {
    if prefix then Prefixed else Plain
  }

  /** Numbers mode: normalise separators, match globally (`|| []`), filter. */
  function PhoneNumbers(text: string, prefix: bool): seq<string> {
    DropStrays(Matches(NumberPattern(prefix), Normalize(text)))
  }

  /**
   * The promise's settled value. A falsy path rejects before the file is
   * read; a read error is passed on; then the options decide the mode.
   */
  function Extract(path: Option<string>, options: Option<Options>, read: Result<string, string>): (r: Result<Outcome, Error>)
    ensures r == Failure(MissingPath(PathRequired)) <==> IsFalsy(path)
    ensures !IsFalsy(path) && read.Failure? ==> r == Failure(ReadFailed(read.error))
    ensures r.Success? ==> read.Success? && (r.value.Numbers? <==> options.GetOr(DefaultOptions).onlyNumbers)
    ensures r.Failure? && r.error.TypeError? ==> read.Success? && !options.GetOr(DefaultOptions).onlyNumbers
  {
    if IsFalsy(path) then Failure(MissingPath(PathRequired))
    else match read
      case Failure(cause) => Failure(ReadFailed(cause))
      case Success(data) =>
        var o := options.GetOr(DefaultOptions);
        if o.onlyNumbers then Success(Numbers(PhoneNumbers(data, o.prefix)))
        else match Contacts(data, o.fields)
          case Failure(crash) => Failure(TypeError(crash))
          case Success(contacts) => Success(Records(contacts))
  }

  /**
   * The `lines.forEach` loop and the final push, on the contact and list the
   * source mutates; a line that throws ends the loop with that error.
   */
  method CollectContacts(text: string, fields: Option<seq<string>>) returns (r: Result<seq<Record>, Crash>)
    ensures r == Contacts(text, fields)
  {
    var lines := Split(text, '\n');
    ghost var fs := fields.GetOr([]);
    var contacts: seq<Record> := [];
    var current: Record := map[];
    var i := 0;
    while i < |lines|
      invariant 0 <= i <= |lines|
      invariant FirstCrash(fields, lines) == FirstCrash(fields, lines[i..])
      invariant CollectFrom(fs, lines[i..], Acc(current, contacts)) == Collect(fs, lines)
    {
      var line := lines[i];
      assert lines[i..] == [line] + lines[i + 1..];
      var f := ParseLine(line);
      if !IsDelimiter(f.key) {
        if fields.None? {
          return Failure(UndefinedFields);
        }
        var name := MappedKey(f.key);
        if |fields.value| == 0 || name in fields.value {
          if name == "number" {
            if f.value.None? {
              return Failure(UndefinedValue);
            }
            current := current[name := Some(Normalize(f.value.value))];
          } else {
            current := current[name := f.value];
          }
        }
        if line == "" {
          current := current - {""};
          if current != map[] {
            contacts := contacts + [current];
            current := map[];
          }
        }
      }
      i := i + 1;
    }
    if current != map[] {
      contacts := contacts + [current];
    }
    r := Success(contacts);
  }

  /**
   * The promise body of `extractTel` run step by step, with the file's
   * contents (or read error) given. It follows `Extract` and exists to run
   * the records mode through the `CollectContacts` loop.
   */
  method ExtractTel(path: Option<string>, options: Option<Options>, read: Result<string, string>)
    returns (r: Result<Outcome, Error>)
    ensures r == Extract(path, options, read)
  {
    if path.None? || path.value == "" {
      return Failure(MissingPath(PathRequired));
    }
    if read.Failure? {
      return Failure(ReadFailed(read.error));
    }
    var data := read.value;
    var o := if options.Some? then options.value else DefaultOptions;
    if o.onlyNumbers {
      var matches := Matches(NumberPattern(o.prefix), Normalize(data));
      return Success(Numbers(DropStrays(matches)));
    }
    var collected := CollectContacts(data, o.fields);
    if collected.Failure? {
      return Failure(TypeError(collected.error));
    }
    r := Success(Records(collected.value));
  }

  // ----- numbers mode -----

  /**
   * Every match is at least two characters long, so the filter of `"3"` and
   * `"0"` never removes anything: the numbers are the matches themselves.
   */
  lemma PhoneNumbersUnfiltered(text: string, prefix: bool)
    ensures PhoneNumbers(text, prefix) == Matches(NumberPattern(prefix), Normalize(text))
  {
    var p := NumberPattern(prefix);
    var ms := Matches(p, Normalize(text));
    MatchesShape(p, Normalize(text));
    DropStraysNone(ms);
  }

  /**
   * Without `prefix` every number is 9 to 15 digits; with it, a `+` and 1 to
   * 15 digits. Either way it holds no hyphen or whitespace.
   */
  lemma PhoneNumbersShape(text: string, prefix: bool)
    ensures forall k :: 0 <= k < |PhoneNumbers(text, prefix)| ==>
      var n := PhoneNumbers(text, prefix)[k];
      && (!prefix ==> 9 <= |n| <= 15 && AllDigits(n))
      && (prefix ==> 2 <= |n| <= 16 && n[0] == '+' && AllDigits(n[1..]))
  {
    PhoneNumbersUnfiltered(text, prefix);
    MatchesShape(NumberPattern(prefix), Normalize(text));
  }

  /** In numbers mode the `fields` option plays no part: `Extract` never reads it on that branch, so the lemma holds by definition. */
  lemma NumbersIgnoreFields(path: Option<string>, options: Options, fields: Option<seq<string>>, read: Result<string, string>)
    requires options.onlyNumbers
    ensures Extract(path, Some(options), read) == Extract(path, Some(options.(fields := fields)), read)
  {
  }

  // ----- record mode -----

  /**
   * Every contact has a property; every property passes the `fields` filter;
   * a `number` is separator-normalised; only the last contact can keep the
   * `''` property of a trailing colon-less line.
   */
  lemma RecordsShape(path: Option<string>, options: Option<Options>, read: Result<string, string>)
    ensures var r := Extract(path, options, read);
      r.Success? && r.value.Records? ==>
        var fs := options.GetOr(DefaultOptions).fields.GetOr([]);
        && WellFormed(r.value.contacts)
        && forall k :: 0 <= k < |r.value.contacts| ==> OnlyAdmitted(fs, r.value.contacts[k]) && NumberNormalized(r.value.contacts[k])
  {
    var r := Extract(path, options, read);
    if r.Success? && r.value.Records? {
      var fs := options.GetOr(DefaultOptions).fields.GetOr([]);
      var lines := Split(read.value, '\n');
      CollectWellFormed(fs, lines);
      CollectFiltered(fs, lines);
    }
  }

  /**
   * An empty file gives no contacts with a `fields` option, but with an
   * options object lacking `fields` its one (empty) line throws.
   */
  lemma EmptyFile(path: string, options: Options)
    requires path != "" && !options.onlyNumbers
    ensures options.fields.Some? ==> Extract(Some(path), Some(options), Success("")) == Success(Records([]))
    ensures options.fields.None? ==> Extract(Some(path), Some(options), Success("")) == Failure(TypeError(UndefinedFields))
  {
    assert Split("", '\n') == [""];
    assert Split("", ':') == [""];
    var fs := options.fields.GetOr([]);
    assert Collect(fs, [""]) == [] by {
      BlankStep(fs, Acc(map[], []));
      var empty: Record := map[];
      assert empty - {""} == empty;
      assert [""][1..] == [];
    }
    assert FirstCrash(options.fields, [""]) == LineCrash(options.fields, "");
  }

  /** An empty file without options resolves with no contacts. */
  lemma EmptyFileDefault(path: string)
    requires path != ""
    ensures Extract(Some(path), None, Success("")) == Success(Records([]))
  {
    EmptyFile(path, DefaultOptions);
  }
}
