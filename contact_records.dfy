/**
 * The record mode of `extractTel` (index.js): the text is split into lines,
 * each `KEY:VALUE` line is folded into the current contact under its mapped
 * property name, and a blank line closes the contact. This module gives the
 * fold as functions; the loop itself is `VcfTelExtractor.CollectContacts`.
 */
module ContactRecords {
  import opened Wrappers
  import opened JsText

  /** A contact: property name to value, `None` standing for JavaScript's `undefined`. */
  type Record = map<string, Option<string>>

  /** The two ways the line loop throws a TypeError. */
  datatype Crash =
    | UndefinedFields  // `options.fields.length` when the options object has no `fields`
    | UndefinedValue   // `value.replace` when a line mapped to `number` has no colon

  /** `let [key, value] = line.split(":")`: the first two pieces of the line. */
  datatype Field = Field(key: string, value: Option<string>)

  function ParseLine(line: string): Field {
    var parts := Split(line, ':');
    Field(parts[0], if |parts| >= 2 then Some(parts[1]) else None)
  }

  /** The fixed tag table; any other tag is used as its own property name. */
  const KeyMapping: map<string, string> :=
    map["TEL" := "number", "FN" := "firstName", "EMAIL" := "email", "VERSION" := "version"]

  /** `keyMapping[key] || key` (every mapped name is a non-empty, truthy string). */
  function MappedKey(key: string): string {
    if key in KeyMapping then KeyMapping[key] else key
  }

  /** `BEGIN` and `END` lines are skipped before anything else is looked at. */
  predicate IsDelimiter(key: string) {
    key == "BEGIN" || key == "END"
  }

  /** `options.fields.length === 0 || options.fields.includes(mappedKey)` */
  predicate Admits(fields: seq<string>, name: string) {
    |fields| == 0 || name in fields
  }

  /** The value stored under `name`: hyphens and whitespace of a `number` become spaces. */
  function Stored(name: string, value: Option<string>): Option<string> {
    if name == "number" && value.Some? then Some(Normalize(value.value)) else value
  }

  /** The TypeError, if any, that processing `line` throws; it depends on nothing else. */
  function LineCrash(fields: Option<seq<string>>, line: string): Option<Crash> {
    var f := ParseLine(line);
    if IsDelimiter(f.key) then None
    else if fields.None? then Some(UndefinedFields)
    else if Admits(fields.value, MappedKey(f.key)) && MappedKey(f.key) == "number" && f.value.None? then
      Some(UndefinedValue)
    else None
  }

  /** The error of the first line that throws, if any. */
  function FirstCrash(fields: Option<seq<string>>, lines: seq<string>): Option<Crash> {
    if lines == [] then None
    else if LineCrash(fields, lines[0]).Some? then LineCrash(fields, lines[0])
    else FirstCrash(fields, lines[1..])
  }

  /** The assignment a line makes to the current contact (none for `BEGIN`/`END`). */
  function Assign(fields: seq<string>, current: Record, line: string): Record {
    var f := ParseLine(line);
    if IsDelimiter(f.key) then current
    else
      var name := MappedKey(f.key);
      if Admits(fields, name) then current[name := Stored(name, f.value)] else current
  }

  /** The loop state: `currentContact` and `contacts`. */
  datatype Acc = Acc(current: Record, contacts: seq<Record>)

  /**
   * One turn of the loop: assign, and on a blank line drop the `''` property,
   * then emit the contact and start a new one if anything is left.
   */
  function Step(fields: seq<string>, acc: Acc, line: string): Acc {
    var current := Assign(fields, acc.current, line);
    if line == "" then
      var kept := current - {""};
      if kept != map[] then Acc(map[], acc.contacts + [kept]) else Acc(kept, acc.contacts)
    else Acc(current, acc.contacts)
  }

  /** After the loop: the last contact is emitted if it has any property (`Object.keys(c).length > 0`). */
  function Flush(acc: Acc): seq<Record> {
    if acc.current != map[] then acc.contacts + [acc.current] else acc.contacts
  }

  function CollectFrom(fields: seq<string>, lines: seq<string>, acc: Acc): seq<Record>
    decreases |lines|
  {
    if lines == [] then Flush(acc) else CollectFrom(fields, lines[1..], Step(fields, acc, lines[0]))
  }

  /** The contacts of lines that throw nothing. */
  function Collect(fields: seq<string>, lines: seq<string>): seq<Record> {
    CollectFrom(fields, lines, Acc(map[], []))
  }

  /**
   * The record mode on the raw text: the error of the first line that throws,
   * or the collected contacts. When `fields` is absent no line but `BEGIN`/`END`
   * lines can get through without throwing, so the filter used then is moot.
   */
  function Contacts(text: string, fields: Option<seq<string>>): Result<seq<Record>, Crash> {
    var lines := Split(text, '\n');
    match FirstCrash(fields, lines)
    case Some(crash) => Failure(crash)
    case None => Success(Collect(fields.GetOr([]), lines))
  }

  // ----- line parsing -----

  /**
   * The key is the text before the first colon (the whole line when there is
   * none, and then the value is absent); the value is the text between the
   * first and the second colon, or up to the end of the line.
   */
  lemma ParseLineColons(line: string)
    ensures var f := ParseLine(line);
      && ':' !in f.key
      && (f.value.None? <==> ':' !in line)
      && (f.value.None? ==> f.key == line)
      && (f.value.Some? ==>
            && ':' !in f.value.value
            && |f.key| + 1 + |f.value.value| <= |line|
            && line[..|f.key| + 1 + |f.value.value|] == f.key + ":" + f.value.value
            && (|line| == |f.key| + 1 + |f.value.value| || line[|f.key| + 1 + |f.value.value|] == ':'))
  {
    var parts := Split(line, ':');
    if |parts| == 1 {
      assert line == parts[0];
    } else {
      assert line == parts[0] + [':'] + Join(parts[1..], ':');
      var tail := parts[1..];
      if |tail| == 1 {
        assert Join(tail, ':') == parts[1];
      } else {
        assert Join(tail, ':') == parts[1] + [':'] + Join(tail[1..], ':');
      }
      assert line[|parts[0]|] == ':';
    }
  }

  /** A `KEY:VALUE` line with no further colon parses back into its key and value. */
  lemma ParseLineOf(key: string, value: string)
    requires ':' !in key && ':' !in value
    ensures ParseLine(key + ":" + value) == Field(key, Some(value))
  {
    SplitAtFirst(key, ':', value);
    SplitNoSeparator(value, ':');
  }

  /** The four tags map to their property names; every other key stays as it is. */
  lemma MappedKeyTable(key: string)
    ensures key == "TEL" <==> MappedKey(key) == "number" && key != "number"
    ensures key == "FN" <==> MappedKey(key) == "firstName" && key != "firstName"
    ensures key == "EMAIL" <==> MappedKey(key) == "email" && key != "email"
    ensures key == "VERSION" <==> MappedKey(key) == "version" && key != "version"
    ensures key !in {"TEL", "FN", "EMAIL", "VERSION"} ==> MappedKey(key) == key
  {
  }

  // ----- crashes -----

  /** The first crash is the crash of the first line that crashes. */
  lemma {:induction false} FirstCrashIsFirst(fields: Option<seq<string>>, lines: seq<string>)
    ensures FirstCrash(fields, lines).None? <==> forall j :: 0 <= j < |lines| ==> LineCrash(fields, lines[j]).None?
    ensures forall j ::
      (0 <= j < |lines| && LineCrash(fields, lines[j]).Some? && forall j' :: 0 <= j' < j ==> LineCrash(fields, lines[j']).None?)
      ==> FirstCrash(fields, lines) == LineCrash(fields, lines[j])
  {
    if lines != [] {
      FirstCrashIsFirst(fields, lines[1..]);
      forall j | 0 < j < |lines|
        ensures lines[j] == lines[1..][j - 1]
      {
      }
    }
  }

  /** The lines of a concatenation throw the first error of the first part, else of the second. */
  lemma {:induction false} FirstCrashAppend(fields: Option<seq<string>>, a: seq<string>, b: seq<string>)
    ensures FirstCrash(fields, a + b) == if FirstCrash(fields, a).Some? then FirstCrash(fields, a) else FirstCrash(fields, b)
  {
    if a == [] {
      assert a + b == b;
    } else {
      assert (a + b)[1..] == a[1..] + b;
      FirstCrashAppend(fields, a[1..], b);
    }
  }

  /**
   * Without a `fields` option every line other than `BEGIN`/`END` throws on
   * `options.fields.length`; with only such lines nothing throws.
   */
  lemma {:induction false} MissingFieldsCrash(lines: seq<string>)
    ensures FirstCrash(None, lines) ==
      if exists j :: 0 <= j < |lines| && !IsDelimiter(ParseLine(lines[j]).key) then Some(UndefinedFields) else None
  {
    if lines != [] {
      MissingFieldsCrash(lines[1..]);
      forall j | 0 < j < |lines|
        ensures lines[j] == lines[1..][j - 1]
      {
      }
      if !IsDelimiter(ParseLine(lines[0]).key) {
        assert LineCrash(None, lines[0]) == Some(UndefinedFields);
      }
    }
  }

  /** A line without a colon is all key and has no value. */
  lemma ParseLineNoColon(line: string)
    requires ':' !in line
    ensures ParseLine(line) == Field(line, None)
  {
    SplitNoSeparator(line, ':');
  }

  /** A line with a colon has a value, so it never throws with a `fields` option. */
  lemma ParseLineColon(fields: seq<string>, line: string)
    requires ':' in line
    ensures ParseLine(line).value.Some?
    ensures LineCrash(Some(fields), line).None?
  {
  }

  /** Only `TEL` and `number` itself map to `number`. */
  lemma MappedToNumber(key: string)
    ensures MappedKey(key) == "number" <==> key == "TEL" || key == "number"
  {
  }

  /** With a `fields` option a line throws only when it is a bare `TEL` or `number` and `number` is admitted. */
  lemma LineCrashWithFields(fields: seq<string>, line: string)
    ensures LineCrash(Some(fields), line) != Some(UndefinedFields)
    ensures LineCrash(Some(fields), line).Some? <==> Admits(fields, "number") && (line == "TEL" || line == "number")
  {
    if ':' in line {
      ParseLineColon(fields, line);
      assert line != "TEL" && line != "number";
    } else {
      ParseLineNoColon(line);
      MappedToNumber(line);
    }
  }

  /**
   * With a `fields` option the only crash is `value.replace` on a bare `TEL`
   * or `number` line (no colon), and only when `number` passes the filter.
   */
  lemma {:induction false} BareNumberCrash(fields: seq<string>, lines: seq<string>)
    ensures FirstCrash(Some(fields), lines) != Some(UndefinedFields)
    ensures FirstCrash(Some(fields), lines).Some? <==>
      Admits(fields, "number") && exists j :: 0 <= j < |lines| && (lines[j] == "TEL" || lines[j] == "number")
  {
    if lines != [] {
      BareNumberCrash(fields, lines[1..]);
      LineCrashWithFields(fields, lines[0]);
      forall j | 0 < j < |lines|
        ensures lines[j] == lines[1..][j - 1]
      {
      }
    }
  }

  // ----- the fold -----

  /** Contacts already emitted stay in front of whatever the rest of the loop emits. */
  lemma {:induction false} CollectFromPrefix(fields: seq<string>, lines: seq<string>, current: Record, contacts: seq<Record>)
    ensures CollectFrom(fields, lines, Acc(current, contacts)) == contacts + CollectFrom(fields, lines, Acc(current, []))
    decreases |lines|
  {
    if lines == [] {
      assert [] + [current] == [current];
    } else {
      var a := Step(fields, Acc(current, contacts), lines[0]);
      var b := Step(fields, Acc(current, []), lines[0]);
      assert a.current == b.current && a.contacts == contacts + b.contacts;
      CollectFromPrefix(fields, lines[1..], a.current, a.contacts);
      CollectFromPrefix(fields, lines[1..], b.current, b.contacts);
      var rest := CollectFrom(fields, lines[1..], Acc(a.current, []));
      assert a.contacts + rest == contacts + (b.contacts + rest);
    }
  }

  /** The assignments of a run of lines, with no emission. */
  function Build(fields: seq<string>, current: Record, lines: seq<string>): Record
    decreases |lines|
  {
    if lines == [] then current else Build(fields, Assign(fields, current, lines[0]), lines[1..])
  }

  /** The contact as a one-element list, or no list element when it has no property. */
  function NonEmpty(r: Record): seq<Record> {
    if r != map[] then [r] else []
  }

  /** Inside a contact (no blank line) the loop only assigns. */
  lemma {:induction false} CollectWithinBlock(fields: seq<string>, lines: seq<string>, acc: Acc)
    requires "" !in lines
    ensures CollectFrom(fields, lines, acc) == Flush(Acc(Build(fields, acc.current, lines), acc.contacts))
    decreases |lines|
  {
    if lines != [] {
      assert lines[0] != "";
      assert "" !in lines[1..];
      CollectWithinBlock(fields, lines[1..], Step(fields, acc, lines[0]));
    }
  }

  /** The blank line: its `''` assignment is dropped again, and the contact is emitted if non-empty. */
  lemma BlankStep(fields: seq<string>, acc: Acc)
    ensures Step(fields, acc, "") == Acc(map[], acc.contacts + NonEmpty(acc.current - {""}))
  {
    assert Split("", ':') == [""];
    var current := Assign(fields, acc.current, "");
    assert current - {""} == acc.current - {""};
  }

  /** A blank line emits the contact built so far, without its `''` property, if anything is left. */
  lemma {:induction false} CollectAcrossBlank(fields: seq<string>, block: seq<string>, rest: seq<string>, acc: Acc)
    requires "" !in block
    ensures CollectFrom(fields, block + [""] + rest, acc) ==
      CollectFrom(fields, rest, Acc(map[], acc.contacts + NonEmpty(Build(fields, acc.current, block) - {""})))
    decreases |block|
  {
    if block == [] {
      assert block + [""] + rest == [""] + rest;
      assert ([""] + rest)[1..] == rest;
      BlankStep(fields, acc);
    } else {
      assert block[0] != "";
      assert "" !in block[1..];
      assert (block + [""] + rest)[1..] == block[1..] + [""] + rest;
      CollectAcrossBlank(fields, block[1..], rest, Step(fields, acc, block[0]));
    }
  }

  /** Lines without a blank one give at most one contact: the assignments, if any property is set. */
  lemma CollectOneBlock(fields: seq<string>, lines: seq<string>)
    requires "" !in lines
    ensures Collect(fields, lines) == NonEmpty(Build(fields, map[], lines))
  {
    CollectWithinBlock(fields, lines, Acc(map[], []));
  }

  /**
   * A blank line separates contacts: the lines before it give their contact
   * (without the `''` property) if it is non-empty, and the lines after it
   * are collected from a fresh contact.
   */
  lemma CollectBlankSeparated(fields: seq<string>, block: seq<string>, rest: seq<string>)
    requires "" !in block
    ensures Collect(fields, block + [""] + rest) ==
      NonEmpty(Build(fields, map[], block) - {""}) + Collect(fields, rest)
  {
    var first := NonEmpty(Build(fields, map[], block) - {""});
    CollectAcrossBlank(fields, block, rest, Acc(map[], []));
    assert [] + first == first;
    CollectFromPrefix(fields, rest, map[], first);
  }

  /** The line writes property `name`. */
  predicate Writes(fields: seq<string>, line: string, name: string) {
    var f := ParseLine(line);
    !IsDelimiter(f.key) && MappedKey(f.key) == name && Admits(fields, name)
  }

  /** The value a writing line stores. */
  function Written(line: string): Option<string> {
    var f := ParseLine(line);
    Stored(MappedKey(f.key), f.value)
  }

  /** One assignment writes `name` or leaves it as it was. */
  lemma AssignWrites(fields: seq<string>, current: Record, line: string, name: string)
    ensures Writes(fields, line, name) ==> Assign(fields, current, line) == current[name := Written(line)]
    ensures !Writes(fields, line, name) ==>
      (name in Assign(fields, current, line) <==> name in current)
      && (name in current ==> Assign(fields, current, line)[name] == current[name])
  {
  }

  /**
   * Within a contact a property is present exactly when it was present before
   * or some line writes it, and the last line that writes it decides its value.
   */
  lemma {:induction false} BuildLastWriteWins(fields: seq<string>, current: Record, lines: seq<string>, name: string)
    ensures name in Build(fields, current, lines) <==>
      name in current || exists j :: 0 <= j < |lines| && Writes(fields, lines[j], name)
    ensures forall j ::
      (0 <= j < |lines| && Writes(fields, lines[j], name) && forall j' :: j < j' < |lines| ==> !Writes(fields, lines[j'], name))
      ==> Build(fields, current, lines)[name] == Written(lines[j])
    ensures (forall j :: 0 <= j < |lines| ==> !Writes(fields, lines[j], name)) && name in current ==>
      Build(fields, current, lines)[name] == current[name]
    decreases |lines|
  {
    if lines != [] {
      var next := Assign(fields, current, lines[0]);
      BuildLastWriteWins(fields, next, lines[1..], name);
      forall j | 0 < j < |lines|
        ensures lines[j] == lines[1..][j - 1]
      {
      }
      AssignWrites(fields, current, lines[0], name);
    }
  }

  // ----- what every emitted contact looks like -----

  /** Every emitted contact has a property; all but the last lack the `''` property. */
  predicate WellFormed(contacts: seq<Record>) {
    && (forall k :: 0 <= k < |contacts| ==> contacts[k] != map[])
    && (forall k :: 0 <= k < |contacts| - 1 ==> "" !in contacts[k])
  }

  lemma {:induction false} CollectFromWellFormed(fields: seq<string>, lines: seq<string>, acc: Acc)
    requires forall k :: 0 <= k < |acc.contacts| ==> acc.contacts[k] != map[] && "" !in acc.contacts[k]
    ensures WellFormed(CollectFrom(fields, lines, acc))
    decreases |lines|
  {
    if lines != [] {
      CollectFromWellFormed(fields, lines[1..], Step(fields, acc, lines[0]));
    }
  }

  /**
   * Only non-empty contacts are emitted, and only the contact flushed after
   * the loop can still hold the `''` property (blank-line emissions drop it).
   */
  lemma CollectWellFormed(fields: seq<string>, lines: seq<string>)
    ensures WellFormed(Collect(fields, lines))
  {
    CollectFromWellFormed(fields, lines, Acc(map[], []));
  }

  /** Every property of a contact passes the fields filter. */
  predicate OnlyAdmitted(fields: seq<string>, r: Record) {
    forall name :: name in r ==> Admits(fields, name)
  }

  /** A `number` value has had its hyphens and whitespace turned into spaces. */
  predicate NumberNormalized(r: Record) {
    "number" in r && r["number"].Some? ==> Normalize(r["number"].value) == r["number"].value
  }

  predicate Filtered(fields: seq<string>, r: Record) {
    OnlyAdmitted(fields, r) && NumberNormalized(r)
  }

  /** One turn of the loop keeps every contact, finished or not, filtered. */
  lemma StepFiltered(fields: seq<string>, acc: Acc, line: string)
    requires Filtered(fields, acc.current)
    requires forall k :: 0 <= k < |acc.contacts| ==> Filtered(fields, acc.contacts[k])
    ensures Filtered(fields, Step(fields, acc, line).current)
    ensures forall k :: 0 <= k < |Step(fields, acc, line).contacts| ==> Filtered(fields, Step(fields, acc, line).contacts[k])
  {
    var f := ParseLine(line);
    if MappedKey(f.key) == "number" && f.value.Some? {
      NormalizeIdempotent(f.value.value);
    }
    var current := Assign(fields, acc.current, line);
    assert Filtered(fields, current);
    assert Filtered(fields, current - {""});
  }

  lemma {:induction false} CollectFromFiltered(fields: seq<string>, lines: seq<string>, acc: Acc)
    requires Filtered(fields, acc.current)
    requires forall k :: 0 <= k < |acc.contacts| ==> Filtered(fields, acc.contacts[k])
    ensures forall k :: 0 <= k < |CollectFrom(fields, lines, acc)| ==> Filtered(fields, CollectFrom(fields, lines, acc)[k])
    decreases |lines|
  {
    if lines == [] {
      var rs := Flush(acc);
      forall k | 0 <= k < |rs|
        ensures Filtered(fields, rs[k])
      {
        if k < |acc.contacts| {
          assert rs[k] == acc.contacts[k];
        }
      }
    } else {
      StepFiltered(fields, acc, lines[0]);
      CollectFromFiltered(fields, lines[1..], Step(fields, acc, lines[0]));
    }
  }

  /**
   * Every property of an emitted contact passes the fields filter (so a
   * non-empty `fields` list keeps only the listed properties), and every
   * `number` value is hyphen- and whitespace-normalised.
   */
  lemma CollectFiltered(fields: seq<string>, lines: seq<string>)
    ensures var rs := Collect(fields, lines);
      forall k :: 0 <= k < |rs| ==> OnlyAdmitted(fields, rs[k]) && NumberNormalized(rs[k])
  {
    CollectFromFiltered(fields, lines, Acc(map[], []));
    var rs := Collect(fields, lines);
    assert forall k :: 0 <= k < |rs| ==> Filtered(fields, rs[k]);
  }

  /** A `BEGIN` or `END` line neither throws nor changes the loop state. */
  lemma DelimiterStep(fields: seq<string>, acc: Acc, line: string)
    requires IsDelimiter(ParseLine(line).key)
    ensures Step(fields, acc, line) == acc
    ensures LineCrash(Some(fields), line).None?
  {
    assert Split("", ':') == [""];
  }

  /** `BEGIN` and `END` lines change nothing: removing one gives the same result. */
  lemma {:induction false} DelimiterLineIgnored(fields: seq<string>, before: seq<string>, line: string, after: seq<string>, acc: Acc)
    requires IsDelimiter(ParseLine(line).key)
    ensures CollectFrom(fields, before + [line] + after, acc) == CollectFrom(fields, before + after, acc)
    ensures FirstCrash(Some(fields), before + [line] + after) == FirstCrash(Some(fields), before + after)
    decreases |before|
  {
    if before == [] {
      assert before + [line] + after == [line] + after;
      assert ([line] + after)[1..] == after;
      assert ([line] + after)[0] == line;
      assert before + after == after;
      DelimiterStep(fields, acc, line);
    } else {
      assert (before + [line] + after)[1..] == before[1..] + [line] + after;
      assert (before + after)[1..] == before[1..] + after;
      DelimiterLineIgnored(fields, before[1..], line, after, Step(fields, acc, before[0]));
      assert before[0] == (before + after)[0];
    }
  }

  /** At most one contact more than there are blank lines. */
  lemma {:induction false} CollectFromCount(fields: seq<string>, lines: seq<string>, acc: Acc)
    ensures |CollectFrom(fields, lines, acc)| <= |acc.contacts| + multiset(lines)[""] + 1
    decreases |lines|
  {
    if lines != [] {
      CollectFromCount(fields, lines[1..], Step(fields, acc, lines[0]));
      assert lines == [lines[0]] + lines[1..];
      assert multiset(lines) == multiset([lines[0]]) + multiset(lines[1..]);
    }
  }

  lemma CollectCount(fields: seq<string>, lines: seq<string>)
    ensures |Collect(fields, lines)| <= multiset(lines)[""] + 1
  {
    CollectFromCount(fields, lines, Acc(map[], []));
  }
}
