/**
 * The behaviour the repository's tests describe, proved of `Extract` for
 * every file of the tests' shape: cards of six lines `BEGIN:VCARD`,
 * `VERSION:3.0`, `FN:John Doe`, `TEL:+1234567890`,
 * `EMAIL:john.doe@example.com`, `END:VCARD`, with any such values.
 */
module ExtractExamples {
  import opened Wrappers
  import opened JsText
  import opened RegexScan
  import opened ContactRecords
  import opened VcfTelExtractor

  /** A `KEY:VALUE` line. */
  function Line(key: string, value: string): string {
    key + ":" + value
  }

  /** The values of a card; `kind` is what follows `BEGIN:` and `END:` (`VCARD`). */
  datatype Card = Card(kind: string, version: string, name: string, tel: string, email: string)

  /** A card's six lines. */
  function CardLines(c: Card): seq<string> {
    [Line("BEGIN", c.kind), Line("VERSION", c.version), Line("FN", c.name), Line("TEL", c.tel),
     Line("EMAIL", c.email), Line("END", c.kind)]
  }

  /** A value that holds no colon and no newline. */
  predicate Simple(v: string) {
    ':' !in v && '\n' !in v
  }

  predicate SimpleCard(c: Card) {
    Simple(c.kind) && Simple(c.version) && Simple(c.name) && Simple(c.tel) && Simple(c.email)
  }

  /** A number with no hyphen or whitespace, such as `+1234567890`. */
  predicate Unbroken(tel: string) {
    forall k :: 0 <= k < |tel| ==> !IsSeparator(tel[k])
  }

  /** The assignment of `value` under `name` when `name` passes the filter. */
  function Put(fields: seq<string>, r: Record, name: string, value: string): Record {
    if Admits(fields, name) then r[name := Some(value)] else r
  }

  /** The contact such a card gives under a `fields` list (the number normalised). */
  function CardContact(fields: seq<string>, c: Card): Record {
    Put(fields, Put(fields, Put(fields, Put(fields, map[], "version", c.version), "firstName", c.name),
      "number", Normalize(c.tel)), "email", c.email)
  }

  /** A card's four properties under their mapped names. */
  function FullContact(c: Card): Record {
    map["version" := Some(c.version), "firstName" := Some(c.name), "number" := Some(c.tel), "email" := Some(c.email)]
  }

  /** Without a filter the card's contact is all four properties, the number unchanged. */
  lemma FullCardContact(c: Card)
    requires Unbroken(c.tel)
    ensures CardContact([], c) == FullContact(c)
    ensures FullContact(c) != map[] && "" !in FullContact(c)
  {
    NormalizeNoSeparators(c.tel);
    assert "version" in FullContact(c);
  }

  /** A `KEY:VALUE` line with a simple value assigns the value under the mapped key. */
  lemma AssignSimple(fields: seq<string>, r: Record, key: string, value: string)
    requires Simple(key) && Simple(value) && !IsDelimiter(key)
    ensures Assign(fields, r, Line(key, value)) == Put(fields, r, MappedKey(key), Stored(MappedKey(key), Some(value)).value)
    ensures LineCrash(Some(fields), Line(key, value)).None?
    ensures Line(key, value) != "" && '\n' !in Line(key, value)
  {
    ParseLineOf(key, value);
  }

  /** The card's keys: colon-free, not delimiters except `BEGIN`/`END`, and their property names. */
  lemma CardKeys()
    ensures Simple("BEGIN") && Simple("END") && IsDelimiter("BEGIN") && IsDelimiter("END")
    ensures Simple("VERSION") && !IsDelimiter("VERSION") && MappedKey("VERSION") == "version"
    ensures Simple("FN") && !IsDelimiter("FN") && MappedKey("FN") == "firstName"
    ensures Simple("TEL") && !IsDelimiter("TEL") && MappedKey("TEL") == "number"
    ensures Simple("EMAIL") && !IsDelimiter("EMAIL") && MappedKey("EMAIL") == "email"
  {
  }

  /** The file splits back into the card's lines, none of them blank. */
  lemma CardSplit(c: Card)
    requires SimpleCard(c)
    ensures var ls := CardLines(c);
      Split(Join(ls, '\n'), '\n') == ls && "" !in ls && forall k :: 0 <= k < |ls| ==> '\n' !in ls[k]
  {
    var ls := CardLines(c);
    forall k | 0 <= k < |ls|
      ensures '\n' !in ls[k] && ls[k] != ""
    {
    }
    SplitJoin(ls, '\n');
  }

  /** No line of the card throws. */
  lemma CardNoCrash(fields: seq<string>, c: Card)
    requires SimpleCard(c)
    ensures FirstCrash(Some(fields), CardLines(c)).None?
  {
    var ls := CardLines(c);
    CardKeys();
    ParseLineOf("BEGIN", c.kind);
    ParseLineOf("END", c.kind);
    AssignSimple(fields, map[], "VERSION", c.version);
    AssignSimple(fields, map[], "FN", c.name);
    AssignSimple(fields, map[], "TEL", c.tel);
    AssignSimple(fields, map[], "EMAIL", c.email);
    assert LineCrash(Some(fields), ls[0]).None? && LineCrash(Some(fields), ls[5]).None?;
    forall j | 0 <= j < |ls|
      ensures LineCrash(Some(fields), ls[j]).None?
    {
    }
    FirstCrashIsFirst(Some(fields), ls);
  }

  /** The card's lines assign its four properties, the `BEGIN`/`END` lines nothing. */
  lemma CardBuild(fields: seq<string>, c: Card)
    requires SimpleCard(c)
    ensures Build(fields, map[], CardLines(c)) == CardContact(fields, c)
  {
    var ls := CardLines(c);
    CardKeys();
    ParseLineOf("BEGIN", c.kind);
    ParseLineOf("END", c.kind);
    AssignSimple(fields, map[], "VERSION", c.version);
    var r1 := Put(fields, map[], "version", c.version);
    AssignSimple(fields, r1, "FN", c.name);
    var r2 := Put(fields, r1, "firstName", c.name);
    AssignSimple(fields, r2, "TEL", c.tel);
    var r3 := Put(fields, r2, "number", Normalize(c.tel));
    AssignSimple(fields, r3, "EMAIL", c.email);
    var r4 := Put(fields, r3, "email", c.email);
    assert Build(fields, r4, ls[5..]) == r4;
    assert Build(fields, r3, ls[4..]) == r4;
    assert Build(fields, r2, ls[3..]) == r4;
    assert Build(fields, r1, ls[2..]) == r4;
    assert Build(fields, map[], ls[1..]) == r4;
  }

  /** Such a card gives one contact: its four properties as far as the filter admits them. */
  lemma CardContacts(fields: seq<string>, c: Card)
    requires SimpleCard(c)
    ensures Contacts(Join(CardLines(c), '\n'), Some(fields))
      == Success(NonEmpty(CardContact(fields, c)))
  {
    var ls := CardLines(c);
    CardSplit(c);
    CardNoCrash(fields, c);
    CardBuild(fields, c);
    CollectOneBlock(fields, ls);
  }


  /**
   * Without options every property of a one-card file is kept, under its
   * mapped name (the tests' `John Doe` card, with any such values). The
   * number must have no hyphen or whitespace: the stored one is normalised.
   */
  lemma OneCardAllFields(path: string, c: Card)
    requires path != ""
    requires SimpleCard(c) && Unbroken(c.tel)
    ensures Extract(Some(path), None, Success(Join(CardLines(c), '\n'))) == Success(Records([FullContact(c)]))
  {
    CardContacts([], c);
    FullCardContact(c);
  }

  /** With `fields: ['number', 'firstName']` only those two properties are kept (for a number with no hyphen or whitespace). */
  lemma OneCardSomeFields(path: string, c: Card)
    requires path != ""
    requires SimpleCard(c) && Unbroken(c.tel)
    ensures Extract(Some(path), Some(Options(Some(["number", "firstName"]), false, false)),
      Success(Join(CardLines(c), '\n'))) ==
      Success(Records([map["firstName" := Some(c.name), "number" := Some(c.tel)]]))
  {
    var fields := ["number", "firstName"];
    CardContacts(fields, c);
    NormalizeNoSeparators(c.tel);
    var r := CardContact(fields, c);
    assert !Admits(fields, "version") && !Admits(fields, "email");
    assert r == map["firstName" := Some(c.name), "number" := Some(c.tel)];
    assert r != map[] by {
      assert "number" in r;
    }
  }

  // ----- numbers mode -----

  /** The text before the card's number. */
  function Head(c: Card): string {
    Join(CardLines(c)[..3], '\n') + ['\n'] + "TEL:"
  }

  /** The text after the card's number. */
  function Tail(c: Card): string {
    ['\n'] + Join(CardLines(c)[4..], '\n')
  }

  lemma Regroup(x: string, key: string, tel: string, y: string)
    ensures x + ['\n'] + (key + ":" + tel) + ['\n'] + y == (x + ['\n'] + (key + ":")) + tel + (['\n'] + y)
  {
  }

  /** The file is the text before the number, the number, and the text after it. */
  lemma CardText(c: Card)
    ensures Join(CardLines(c), '\n') == Head(c) + c.tel + Tail(c)
  {
    var ls := CardLines(c);
    JoinAt(ls, '\n', 4);
    JoinAt(ls[..4], '\n', 3);
    assert ls[..4][..3] == ls[..3];
    assert ls[..4][3..] == [Line("TEL", c.tel)];
    Regroup(Join(ls[..3], '\n'), "TEL", c.tel, Join(ls[4..], '\n'));
  }

  /** A number of the form `+` and 9 to 15 digits, such as `+1234567890`. */
  predicate Prefixed(tel: string) {
    10 <= |tel| <= 16 && tel[0] == '+' && AllDigits(tel[1..])
  }

  lemma PrefixedUnbroken(tel: string)
    requires Prefixed(tel)
    ensures Unbroken(tel) && Normalize(tel) == tel
  {
    forall k | 0 <= k < |tel|
      ensures !IsSeparator(tel[k])
    {
      if k > 0 {
        assert tel[k] == tel[1..][k - 1];
      }
    }
    NormalizeNoSeparators(tel);
  }

  /** Normalising keeps every `+` and every digit where they are, and adds none. */
  lemma NormalizeKeeps(s: string)
    ensures ('+' in Normalize(s)) == ('+' in s)
    ensures NoDigitPair(s) ==> NoDigitPair(Normalize(s))
  {
    var r := Normalize(s);
    if '+' in r {
      var k :| 0 <= k < |r| && r[k] == '+';
      assert s[k] == '+';
    }
    if '+' in s {
      var k :| 0 <= k < |s| && s[k] == '+';
      assert r[k] == '+';
    }
  }

  /** Values without a `+`. */
  predicate PlusFree(c: Card) {
    '+' !in c.kind && '+' !in c.version && '+' !in c.name && '+' !in c.email
  }

  /** Outside its number, a card without other `+` signs has none. */
  lemma CardPlusFree(c: Card)
    requires PlusFree(c)
    ensures '+' !in Head(c) && '+' !in Tail(c)
  {
    var ls := CardLines(c);
    forall k | 0 <= k < 3
      ensures '+' !in ls[..3][k]
    {
    }
    forall k | 0 <= k < 2
      ensures '+' !in ls[4..][k]
    {
    }
    JoinExcludes(ls[..3], '\n', '+');
    JoinExcludes(ls[4..], '\n', '+');
  }

  /** The prefix pattern finds the card's number and nothing else. */
  lemma PrefixedCardMatches(c: Card)
    requires Prefixed(c.tel) && PlusFree(c)
    ensures Matches(Pattern.Prefixed, Normalize(Join(CardLines(c), '\n'))) == [c.tel]
  {
    CardText(c);
    CardPlusFree(c);
    PrefixedUnbroken(c.tel);
    NormalizeAppend(Head(c) + c.tel, Tail(c));
    NormalizeAppend(Head(c), c.tel);
    NormalizeKeeps(Head(c));
    NormalizeKeeps(Tail(c));
    var v := Normalize(Tail(c));
    assert v[0] == ' ';
    PrefixedSole(Normalize(Head(c)), c.tel, v);
  }

  /**
   * With `onlyNumbers` and `prefix`, a card whose number is a `+` and 9 to 15
   * digits, the only `+` in the file, gives exactly that number, whatever
   * the `fields` option.
   */
  lemma OneCardPrefixed(path: string, c: Card, fields: Option<seq<string>>)
    requires path != "" && Prefixed(c.tel) && PlusFree(c)
    ensures Extract(Some(path), Some(Options(fields, true, true)), Success(Join(CardLines(c), '\n'))) ==
      Success(Numbers([c.tel]))
  {
    PrefixedCardMatches(c);
    PhoneNumbersUnfiltered(Join(CardLines(c), '\n'), true);
  }

  lemma RegroupSign(h: string, digits: string, v: string)
    ensures h + (['+'] + digits) + v == (h + ['+']) + digits + v
  {
  }

  /** Values without two adjacent digits (`3.0` has none). */
  predicate DigitPairFree(c: Card) {
    NoDigitPair(c.kind) && NoDigitPair(c.version) && NoDigitPair(c.name) && NoDigitPair(c.email)
  }

  /** A line whose value has no adjacent digits has none. */
  lemma LineDigitPairFree(key: string, value: string)
    requires NoDigitPair(key) && NoDigitPair(value)
    ensures NoDigitPair(Line(key, value))
  {
    NoDigitPairGlue(key, ':', value);
    assert key + ":" + value == key + [':'] + value;
  }

  /** Outside its number, such a card has no adjacent digits. */
  lemma CardDigitPairFree(c: Card)
    requires DigitPairFree(c)
    ensures NoDigitPair(Head(c)) && NoDigitPair(Tail(c))
  {
    var ls := CardLines(c);
    assert NoDigitPair("BEGIN") && NoDigitPair("VERSION") && NoDigitPair("FN") && NoDigitPair("EMAIL") && NoDigitPair("END");
    LineDigitPairFree("BEGIN", c.kind);
    LineDigitPairFree("VERSION", c.version);
    LineDigitPairFree("FN", c.name);
    LineDigitPairFree("EMAIL", c.email);
    LineDigitPairFree("END", c.kind);
    forall k | 0 <= k < 3
      ensures NoDigitPair(ls[..3][k])
    {
    }
    forall k | 0 <= k < 2
      ensures NoDigitPair(ls[4..][k])
    {
    }
    NoDigitPairJoin(ls[..3], '\n');
    NoDigitPairJoin(ls[4..], '\n');
    assert NoDigitPair("TEL:");
    NoDigitPairGlue(Join(ls[..3], '\n'), '\n', "TEL:");
    NoDigitPairGlue([], '\n', Join(ls[4..], '\n'));
    assert [] + ['\n'] + Join(ls[4..], '\n') == Tail(c);
  }

  /**
   * With `onlyNumbers` and no `prefix`, the same card gives its number
   * without the `+` (the tests' `1234567890`), whatever the `fields` option.
   */
  lemma OneCardUnprefixed(path: string, c: Card, fields: Option<seq<string>>)
    requires path != "" && Prefixed(c.tel) && DigitPairFree(c)
    ensures Extract(Some(path), Some(Options(fields, true, false)), Success(Join(CardLines(c), '\n'))) ==
      Success(Numbers([c.tel[1..]]))
  {
    var text := Join(CardLines(c), '\n');
    CardText(c);
    CardDigitPairFree(c);
    PrefixedUnbroken(c.tel);
    NormalizeAppend(Head(c) + c.tel, Tail(c));
    NormalizeAppend(Head(c), c.tel);
    NormalizeKeeps(Head(c));
    NormalizeKeeps(Tail(c));
    var h, v := Normalize(Head(c)), Normalize(Tail(c));
    assert v[0] == ' ';
    NoDigitPairGlue(h, '+', []);
    assert h + ['+'] + [] == h + ['+'];
    assert Normalize(text) == h + c.tel + v;
    assert c.tel == ['+'] + c.tel[1..];
    RegroupSign(h, c.tel[1..], v);
    PlainSole(h + ['+'], c.tel[1..], v);
    PhoneNumbersUnfiltered(text, false);
  }

  // ----- several cards -----

  /** `n` blank lines. */
  function Blanks(n: nat): seq<string> {
    seq(n, _ => "")
  }

  /** The cards' lines with one blank line between consecutive cards. */
  function BlankSeparated(cs: seq<Card>): seq<string>
    requires |cs| > 0
  {
    if |cs| == 1 then CardLines(cs[0]) else CardLines(cs[0]) + [""] + BlankSeparated(cs[1..])
  }

  /** Every card's contact, in order. */
  function AllContacts(cs: seq<Card>): seq<Record> {
    if cs == [] then [] else [FullContact(cs[0])] + AllContacts(cs[1..])
  }

  /** Simple cards whose numbers have no hyphen or whitespace, so each is stored as written. */
  predicate GoodCards(cs: seq<Card>) {
    forall k :: 0 <= k < |cs| ==> SimpleCard(cs[k]) && Unbroken(cs[k].tel)
  }

  /** Lines that are all blank give no contact, from an empty one. */
  lemma {:induction false} CollectBlanks(n: nat)
    ensures Collect([], Blanks(n)) == []
  {
    var acc := Acc(map[], []);
    if n > 0 {
      BlankStep([], acc);
      var empty: Record := map[];
      assert empty - {""} == empty;
      assert Blanks(n)[0] == "" && Blanks(n)[1..] == Blanks(n - 1);
      CollectBlanks(n - 1);
    }
  }

  /** Blank lines hold no newline and throw nothing. */
  lemma {:induction false} BlanksWellFormed(n: nat)
    ensures forall k :: 0 <= k < n ==> '\n' !in Blanks(n)[k]
    ensures FirstCrash(Some([]), Blanks(n)).None?
  {
    if n > 0 {
      assert Split("", ':') == [""];
      assert LineCrash(Some([]), "").None?;
      assert Blanks(n) == [""] + Blanks(n - 1);
      assert Blanks(n)[1..] == Blanks(n - 1);
      BlanksWellFormed(n - 1);
    }
  }

  /** The cards' lines hold no newline, and none of them throws. */
  lemma {:induction false} CardsWellFormed(cs: seq<Card>)
    requires |cs| > 0 && GoodCards(cs)
    ensures var ls := BlankSeparated(cs);
      && (forall k :: 0 <= k < |ls| ==> '\n' !in ls[k])
      && FirstCrash(Some([]), ls).None?
    decreases |cs|
  {
    CardSplit(cs[0]);
    CardNoCrash([], cs[0]);
    if |cs| > 1 {
      CardsWellFormed(cs[1..]);
      var tail := BlankSeparated(cs[1..]);
      BlanksWellFormed(1);
      assert Blanks(1) == [""];
      FirstCrashAppend(Some([]), CardLines(cs[0]), [""]);
      FirstCrashAppend(Some([]), CardLines(cs[0]) + [""], tail);
    }
  }

  /** Each card gives its contact, in order; blank lines after the last card add nothing. */
  lemma {:induction false} CollectCards(cs: seq<Card>, n: nat)
    requires |cs| > 0 && GoodCards(cs)
    ensures Collect([], BlankSeparated(cs) + Blanks(n)) == AllContacts(cs)
    decreases |cs|
  {
    var c := cs[0];
    CardBuild([], c);
    CardSplit(c);
    FullCardContact(c);
    var r := FullContact(c);
    assert r - {""} == r;
    if |cs| == 1 {
      assert AllContacts(cs) == [r];
      if n == 0 {
        assert BlankSeparated(cs) + Blanks(n) == CardLines(c);
        CollectOneBlock([], CardLines(c));
      } else {
        assert BlankSeparated(cs) + Blanks(n) == CardLines(c) + [""] + Blanks(n - 1);
        CollectBlankSeparated([], CardLines(c), Blanks(n - 1));
        CollectBlanks(n - 1);
      }
    } else {
      var rest := BlankSeparated(cs[1..]) + Blanks(n);
      assert BlankSeparated(cs) + Blanks(n) == CardLines(c) + [""] + rest;
      CollectBlankSeparated([], CardLines(c), rest);
      CollectCards(cs[1..], n);
    }
  }

  /** The file of such cards splits back into its lines, none of which throws. */
  lemma CardsFileLines(cs: seq<Card>, n: nat)
    requires |cs| > 0 && GoodCards(cs)
    ensures var ls := BlankSeparated(cs) + Blanks(n);
      Split(Join(ls, '\n'), '\n') == ls && FirstCrash(Some([]), ls).None?
  {
    var ls := BlankSeparated(cs) + Blanks(n);
    CardsWellFormed(cs);
    BlanksWellFormed(n);
    FirstCrashAppend(Some([]), BlankSeparated(cs), Blanks(n));
    forall k | 0 <= k < |ls|
      ensures '\n' !in ls[k]
    {
      if k >= |BlankSeparated(cs)| {
        assert ls[k] == Blanks(n)[k - |BlankSeparated(cs)|];
      }
    }
    SplitJoin(ls, '\n');
  }

  /**
   * Good cards separated by blank lines, with any number of blank lines after the
   * last, give one contact per card, in order (the tests' two-contact file
   * and their ten-thousand-card file).
   */
  lemma SeveralCards(path: string, cs: seq<Card>, n: nat)
    requires path != "" && |cs| > 0 && GoodCards(cs)
    ensures Extract(Some(path), None, Success(Join(BlankSeparated(cs) + Blanks(n), '\n'))) == Success(Records(AllContacts(cs)))
  {
    CardsFileLines(cs, n);
    CollectCards(cs, n);
  }
}
