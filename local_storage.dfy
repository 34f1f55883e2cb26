/** The persisted-state hook `useLocalStorage` (src/hooks/use-local-storage.ts):
    how a stored item becomes the initial state, including the JSON reviver
    that turns timestamp-shaped strings back into dates. */
module LocalStorage {
  import opened JsText

  datatype Option<T> = None | Some(value: T)

  // ---------------------------------------------------------------------
  // The timestamp pattern
  //   ^\d{4}-\d{2}-\d{2}T\d{2}:\d{2}:\d{2}.\d{3}Z$
  // written out as the regular expression engine reads it: a sequence of
  // single-unit atoms, each with a fixed repetition count, anchored at both
  // ends (no `m` flag, so `$` is the end of the input only).
  // ---------------------------------------------------------------------

  /** A single-code-unit atom of the pattern. */
  datatype Atom =
    | Digit                 // `\d`
    | AnyButLineTerminator  // an unescaped `.` (no `s` flag)
    | Literal(c: CodeUnit)  // a character that stands for itself

  /** A concatenation of atoms, each with a fixed repetition count:
      `\d{4}-` is Then(Digit, 4, Then(Literal(HYPHEN), 1, End)). */
  datatype Pattern = End | Then(atom: Atom, count: nat, rest: Pattern)

  const HYPHEN: CodeUnit := 0x2D
  const COLON: CodeUnit := 0x3A
  const LETTER_T: CodeUnit := 0x54
  const LETTER_Z: CodeUnit := 0x5A

  /** The line terminators of ECMAScript, which `.` does not match. */
  predicate IsLineTerminator(c: CodeUnit) {
    c == 0x0A || c == 0x0D || c == 0x2028 || c == 0x2029
  }

  predicate AtomMatches(a: Atom, c: CodeUnit) {
    match a
    case Digit => IsAsciiDigit(c)
    case AnyButLineTerminator => !IsLineTerminator(c)
    case Literal(l) => c == l
  }

  /** The whole of `s` matches the pattern; a matching string is as long as
      the pattern written out. */
  predicate Matches(p: Pattern, s: JsString): (r: bool)
    ensures r ==> |s| == |Expand(p)|
    decreases p
  {
    match p
    case End => s == []
    case Then(a, n, rest) =>
      n <= |s|
      && (forall i :: 0 <= i < n ==> AtomMatches(a, s[i]))
      && Matches(rest, s[n..])
  }

  /** The reviver's pattern, term by term. */
  const TimestampPattern: Pattern :=
    Then(Digit, 4, Then(Literal(HYPHEN), 1,
    Then(Digit, 2, Then(Literal(HYPHEN), 1,
    Then(Digit, 2, Then(Literal(LETTER_T), 1,
    Then(Digit, 2, Then(Literal(COLON), 1,
    Then(Digit, 2, Then(Literal(COLON), 1,
    Then(Digit, 2, Then(AnyButLineTerminator, 1,
    Then(Digit, 3, Then(Literal(LETTER_Z), 1,
    End))))))))))))))

  /** The reviver's test on a string value: `TimestampPattern`, anchored at
      both ends, so only 24-unit strings can pass. */
  predicate IsTimestampText(s: JsString): (r: bool)
    ensures r ==> |s| == 24
  {
    ExpandTimestampPattern();
    Matches(TimestampPattern, s)
  }

  /** Positions `lo` to `hi - 1` of `s` hold ASCII digits. */
  predicate DigitsBetween(s: JsString, lo: nat, hi: nat)
    requires lo <= hi <= |s|
  {
    forall i :: lo <= i < hi ==> IsAsciiDigit(s[i])
  }

  /** The same test said position by position. */
  predicate HasTimestampShape(s: JsString) {
    && |s| == 24
    && DigitsBetween(s, 0, 4) && s[4] == HYPHEN
    && DigitsBetween(s, 5, 7) && s[7] == HYPHEN
    && DigitsBetween(s, 8, 10) && s[10] == LETTER_T
    && DigitsBetween(s, 11, 13) && s[13] == COLON
    && DigitsBetween(s, 14, 16) && s[16] == COLON
    && DigitsBetween(s, 17, 19) && !IsLineTerminator(s[19])
    && DigitsBetween(s, 20, 23) && s[23] == LETTER_Z
  }

  /** `n` copies of `a`. */
  function Repeat(a: Atom, n: nat): (r: seq<Atom>)
    ensures |r| == n && forall i :: 0 <= i < n ==> r[i] == a
  {
    if n == 0 then [] else [a] + Repeat(a, n - 1)
  }

  /** The pattern with every term written out `count` times: the atom that
      each position of a matching string must satisfy. */
  function Expand(p: Pattern): seq<Atom>
    decreases p
  {
    match p
    case End => []
    case Then(a, n, rest) => Repeat(a, n) + Expand(rest)
  }

  /** Each unit of a matching string satisfies the atom at its position in
      the expanded pattern. */
  lemma {:induction false} MatchesGivesAtoms(p: Pattern, s: JsString)
    requires Matches(p, s)
    ensures |s| == |Expand(p)| && forall i :: 0 <= i < |s| ==> AtomMatches(Expand(p)[i], s[i])
    decreases p
  {
    match p
    case End =>
    case Then(a, n, rest) =>
      var whole, tail, after := Expand(p), Expand(rest), s[n..];
      assert whole == Repeat(a, n) + tail;
      MatchesGivesAtoms(rest, after);
      forall i | n <= i < |s| ensures AtomMatches(whole[i], s[i]) {
        assert s[i] == after[i - n] && whole[i] == tail[i - n];
      }
  }

  /** A string as long as the expanded pattern whose units all satisfy their
      atoms matches. */
  lemma {:induction false} AtomsGiveMatch(p: Pattern, s: JsString)
    requires |s| == |Expand(p)| && forall i :: 0 <= i < |s| ==> AtomMatches(Expand(p)[i], s[i])
    ensures Matches(p, s)
    decreases p
  {
    match p
    case End =>
    case Then(a, n, rest) =>
      var whole, tail, after := Expand(p), Expand(rest), s[n..];
      assert whole == Repeat(a, n) + tail;
      forall j | 0 <= j < |after| ensures AtomMatches(tail[j], after[j]) {
        assert whole[n + j] == tail[j] && s[n + j] == after[j];
      }
      AtomsGiveMatch(rest, after);
      assert forall i :: 0 <= i < n ==> whole[i] == a;
  }

  /** A string matches a pattern exactly when it is as long as the expanded
      pattern and each of its units satisfies the atom at its position. */
  lemma {:induction false} MatchesPositionwise(p: Pattern, s: JsString)
    ensures Matches(p, s) <==>
      |s| == |Expand(p)| && forall i :: 0 <= i < |s| ==> AtomMatches(Expand(p)[i], s[i])
  {
    if Matches(p, s) {
      MatchesGivesAtoms(p, s);
    } else if |s| == |Expand(p)| && forall i :: 0 <= i < |s| ==> AtomMatches(Expand(p)[i], s[i]) {
      AtomsGiveMatch(p, s);
    }
  }

  /** The timestamp pattern written out unit by unit. */
  const TimestampAtoms: seq<Atom> := [
    Digit, Digit, Digit, Digit, Literal(HYPHEN),
    Digit, Digit, Literal(HYPHEN),
    Digit, Digit, Literal(LETTER_T),
    Digit, Digit, Literal(COLON),
    Digit, Digit, Literal(COLON),
    Digit, Digit, AnyButLineTerminator,
    Digit, Digit, Digit, Literal(LETTER_Z)
  ]

  /** Expanding the timestamp pattern gives its 24 atoms. */
  lemma ExpandTimestampPattern()
    ensures Expand(TimestampPattern) == TimestampAtoms
  {
    // the fourteen terms, first to last
    var t0 := TimestampPattern;
    var t1 := t0.rest;
    var t2 := t1.rest;
    var t3 := t2.rest;
    var t4 := t3.rest;
    var t5 := t4.rest;
    var t6 := t5.rest;
    var t7 := t6.rest;
    var t8 := t7.rest;
    var t9 := t8.rest;
    var t10 := t9.rest;
    var t11 := t10.rest;
    var t12 := t11.rest;
    var t13 := t12.rest;
    var t14 := t13.rest;
    assert t14 == End;
    assert Repeat(Literal(LETTER_Z), 1) == [Literal(LETTER_Z)];
    assert Expand(t13) == [Literal(LETTER_Z)] + Expand(t14);
    assert Repeat(Digit, 3) == [Digit, Digit, Digit];
    assert Expand(t12) == [Digit, Digit, Digit] + Expand(t13);
    assert Repeat(AnyButLineTerminator, 1) == [AnyButLineTerminator];
    assert Expand(t11) == [AnyButLineTerminator] + Expand(t12);
    assert Repeat(Digit, 2) == [Digit, Digit];
    assert Expand(t10) == [Digit, Digit] + Expand(t11);
    assert Repeat(Literal(COLON), 1) == [Literal(COLON)];
    assert Expand(t9) == [Literal(COLON)] + Expand(t10);
    assert Repeat(Digit, 2) == [Digit, Digit];
    assert Expand(t8) == [Digit, Digit] + Expand(t9);
    assert Repeat(Literal(COLON), 1) == [Literal(COLON)];
    assert Expand(t7) == [Literal(COLON)] + Expand(t8);
    assert Repeat(Digit, 2) == [Digit, Digit];
    assert Expand(t6) == [Digit, Digit] + Expand(t7);
    assert Repeat(Literal(LETTER_T), 1) == [Literal(LETTER_T)];
    assert Expand(t5) == [Literal(LETTER_T)] + Expand(t6);
    assert Repeat(Digit, 2) == [Digit, Digit];
    assert Expand(t4) == [Digit, Digit] + Expand(t5);
    assert Repeat(Literal(HYPHEN), 1) == [Literal(HYPHEN)];
    assert Expand(t3) == [Literal(HYPHEN)] + Expand(t4);
    assert Repeat(Digit, 2) == [Digit, Digit];
    assert Expand(t2) == [Digit, Digit] + Expand(t3);
    assert Repeat(Literal(HYPHEN), 1) == [Literal(HYPHEN)];
    assert Expand(t1) == [Literal(HYPHEN)] + Expand(t2);
    assert Repeat(Digit, 4) == [Digit, Digit, Digit, Digit];
    assert Expand(t0) == [Digit, Digit, Digit, Digit] + Expand(t1);
  }

  /** The regular expression accepts exactly the strings of timestamp shape:
      24 units, ASCII digits in the numeric fields, `-`, `T`, `:` and `Z` at
      their places, and any unit but a line terminator at position 19. */
  lemma TimestampPatternMeaning(s: JsString)
    ensures IsTimestampText(s) <==> HasTimestampShape(s)
  {
    ExpandTimestampPattern();
    MatchesPositionwise(TimestampPattern, s);
    if |s| == 24 {
      var ok := forall i :: 0 <= i < 24 ==> AtomMatches(TimestampAtoms[i], s[i]);
      assert ok <==> HasTimestampShape(s);
    }
  }

  /** Position 19 holds an unescaped `.`: replacing that unit of a matching
      string keeps it matching unless the new unit is a line terminator. */
  lemma DotAtPosition19(s: JsString, c: CodeUnit)
    requires HasTimestampShape(s)
    ensures IsTimestampText(s[19 := c]) <==> !IsLineTerminator(c)
  {
    TimestampPatternMeaning(s);
    TimestampPatternMeaning(s[19 := c]);
  }

  /** "2025-99-99T99:99:99.999Z": month, day and time out of range. */
  const OutOfRangeTimestamp: JsString := [0x32, 0x30, 0x32, 0x35, 0x2d, 0x39, 0x39, 0x2d, 0x39, 0x39, 0x54, 0x39, 0x39, 0x3a, 0x39, 0x39, 0x3a, 0x39, 0x39, 0x2e, 0x39, 0x39, 0x39, 0x5a]

  /** The test is about shape only: fields out of range still match. */
  lemma OutOfRangeFieldsMatch()
    ensures IsTimestampText(OutOfRangeTimestamp)
  {
    var s := OutOfRangeTimestamp;
    assert |s| == 24;
    assert DigitsBetween(s, 0, 4);
    assert s[4] == HYPHEN;
    assert HasTimestampShape(s);
    TimestampPatternMeaning(s);
  }

  // ---------------------------------------------------------------------
  // Parsed JSON and the reviver
  // ---------------------------------------------------------------------

  /** A value produced by `JSON.parse`, plus the `Date` objects the reviver
      creates (`JDate` keeps the text it was built from). */
  datatype JsonValue =
    | JNull
    | JBool(b: bool)
    | JNumber(n: real)
    | JString(s: JsString)
    | JArray(items: seq<JsonValue>)
    | JObject(members: seq<Member>)
    | JDate(source: JsString)

  datatype Member = Member(key: JsString, value: JsonValue)

  /** The reviver callback applied to one value: a string of timestamp shape
      becomes a date, everything else is returned as it is. */
  function ReviveOne(v: JsonValue): (r: JsonValue)
    ensures r != v <==> v.JString? && HasTimestampShape(v.s)
    ensures r != v ==> r == JDate(v.s)
  {
    TimestampPatternMeaning(if v.JString? then v.s else []);
    if v.JString? && IsTimestampText(v.s) then JDate(v.s) else v
  }

  /** `JSON.parse(text, reviver)`'s walk: children are revived first, then
      the value holding them is passed to the callback. */
  function Revive(v: JsonValue): (r: JsonValue)
    ensures NoTimestampStrings(r)
    ensures v.JArray? ==> r.JArray? && |r.items| == |v.items|
    ensures v.JObject? ==> r.JObject? && |r.members| == |v.members|
    decreases v
  {
    match v
    case JArray(items) =>
      ReviveOne(JArray(seq(|items|, i requires 0 <= i < |items| => Revive(items[i]))))
    case JObject(ms) =>
      ReviveOne(JObject(seq(|ms|, i requires 0 <= i < |ms| => ReviveMember(ms[i], v))))
    case _ => ReviveOne(v)
  }

  /** One member of an object, its value revived and its key kept. */
  function ReviveMember(m: Member, ghost parent: JsonValue): (r: Member)
    requires m < parent
    ensures r.key == m.key && NoTimestampStrings(r.value)
    decreases parent, 0
  {
    Member(m.key, Revive(m.value))
  }

  /** No string inside `v` has timestamp shape. */
  predicate NoTimestampStrings(v: JsonValue)
    decreases v
  {
    match v
    case JString(s) => !HasTimestampShape(s)
    case JArray(items) => forall i :: 0 <= i < |items| ==> NoTimestampStrings(items[i])
    case JObject(ms) => forall i :: 0 <= i < |ms| ==> NoTimestampStrings(ms[i].value)
    case _ => true
  }

  /** Revival leaves a value unchanged exactly when it held no
      timestamp-shaped string. */
  lemma {:induction false} ReviveMeaning(v: JsonValue)
    ensures Revive(v) == v <==> NoTimestampStrings(v)
    decreases v
  {
    match v
    case JArray(items) =>
      var revived := seq(|items|, i requires 0 <= i < |items| => Revive(items[i]));
      forall i | 0 <= i < |items|
        ensures revived[i] == items[i] <==> NoTimestampStrings(items[i])
      {
        ReviveMeaning(items[i]);
      }
      if revived == items {
        assert forall i :: 0 <= i < |items| ==> NoTimestampStrings(items[i]);
      }
    case JObject(ms) =>
      var revived := seq(|ms|, i requires 0 <= i < |ms| => ReviveMember(ms[i], v));
      forall i | 0 <= i < |ms|
        ensures revived[i] == ms[i] <==> NoTimestampStrings(ms[i].value)
      {
        ReviveMeaning(ms[i].value);
      }
      if revived == ms {
        forall i | 0 <= i < |ms| ensures NoTimestampStrings(ms[i].value) {
          assert revived[i] == ms[i];
        }
      }
    case _ =>
  }

  /** Reviving twice is reviving once. */
  lemma ReviveIdempotent(v: JsonValue)
    ensures Revive(Revive(v)) == Revive(v)
  {
    ReviveMeaning(Revive(v));
  }

  /** No date inside `v`: what `JSON.parse` produces before the reviver. */
  predicate NoDates(v: JsonValue)
    decreases v
  {
    match v
    case JDate(_) => false
    case JArray(items) => forall i :: 0 <= i < |items| ==> NoDates(items[i])
    case JObject(ms) => forall i :: 0 <= i < |ms| ==> NoDates(ms[i].value)
    case _ => true
  }

  /** Every date inside `v` was built from a timestamp-shaped string. */
  predicate DatesShaped(v: JsonValue)
    decreases v
  {
    match v
    case JDate(s) => HasTimestampShape(s)
    case JArray(items) => forall i :: 0 <= i < |items| ==> DatesShaped(items[i])
    case JObject(ms) => forall i :: 0 <= i < |ms| ==> DatesShaped(ms[i].value)
    case _ => true
  }

  /** The inverse of the reviver: every date turned back into the string it
      was built from, everything else kept in place. */
  function Unrevive(v: JsonValue): (r: JsonValue)
    ensures NoDates(r)
    decreases v
  {
    match v
    case JDate(s) => JString(s)
    case JArray(items) =>
      JArray(seq(|items|, i requires 0 <= i < |items| => Unrevive(items[i])))
    case JObject(ms) =>
      JObject(seq(|ms|, i requires 0 <= i < |ms| => UnreviveMember(ms[i], v)))
    case _ => v
  }

  /** One member of an object, its key kept and its value unrevived. */
  function UnreviveMember(m: Member, ghost parent: JsonValue): (r: Member)
    requires m < parent
    ensures r.key == m.key && NoDates(r.value)
    decreases parent, 0
  {
    Member(m.key, Unrevive(m.value))
  }

  /** A value without dates is its own unrevival. */
  lemma {:induction false} UnreviveNoDates(v: JsonValue)
    requires NoDates(v)
    ensures Unrevive(v) == v
    decreases v
  {
    match v
    case JArray(items) =>
      forall i | 0 <= i < |items| ensures Unrevive(items[i]) == items[i] {
        UnreviveNoDates(items[i]);
      }
    case JObject(ms) =>
      forall i | 0 <= i < |ms| ensures UnreviveMember(ms[i], v) == ms[i] {
        UnreviveNoDates(ms[i].value);
      }
    case _ =>
  }

  /** Reviving changes nothing but strings into dates of the same text:
      undoing it gives back what undoing the original gives, and in
      particular the parsed value itself. */
  lemma {:induction false} UnreviveRevive(v: JsonValue)
    ensures Unrevive(Revive(v)) == Unrevive(v)
    ensures NoDates(v) ==> Unrevive(Revive(v)) == v
    decreases v
  {
    if NoDates(v) {
      UnreviveNoDates(v);
    }
    match v
    case JArray(items) =>
      var revived := seq(|items|, i requires 0 <= i < |items| => Revive(items[i]));
      assert Revive(v) == JArray(revived);
      forall i | 0 <= i < |items| ensures Unrevive(revived[i]) == Unrevive(items[i]) {
        UnreviveRevive(items[i]);
      }
    case JObject(ms) =>
      var revived := seq(|ms|, i requires 0 <= i < |ms| => ReviveMember(ms[i], v));
      assert Revive(v) == JObject(revived);
      forall i | 0 <= i < |ms|
        ensures UnreviveMember(revived[i], Revive(v)) == UnreviveMember(ms[i], v)
      {
        UnreviveRevive(ms[i].value);
      }
    case _ =>
  }

  /** A value without dates has no date of the wrong shape. */
  lemma {:induction false} NoDatesShaped(v: JsonValue)
    requires NoDates(v)
    ensures DatesShaped(v)
    decreases v
  {
    match v
    case JArray(items) =>
      forall i | 0 <= i < |items| ensures DatesShaped(items[i]) {
        NoDatesShaped(items[i]);
      }
    case JObject(ms) =>
      forall i | 0 <= i < |ms| ensures DatesShaped(ms[i].value) {
        NoDatesShaped(ms[i].value);
      }
    case _ =>
  }

  /** Every date in a revived value was made from a timestamp-shaped string,
      or was already there. */
  lemma {:induction false} ReviveDatesShaped(v: JsonValue)
    ensures DatesShaped(v) ==> DatesShaped(Revive(v))
    decreases v
  {
    match v
    case JArray(items) =>
      var revived := seq(|items|, i requires 0 <= i < |items| => Revive(items[i]));
      assert Revive(v) == JArray(revived);
      forall i | 0 <= i < |items| ensures DatesShaped(items[i]) ==> DatesShaped(revived[i]) {
        ReviveDatesShaped(items[i]);
      }
    case JObject(ms) =>
      var revived := seq(|ms|, i requires 0 <= i < |ms| => ReviveMember(ms[i], v));
      assert Revive(v) == JObject(revived);
      forall i | 0 <= i < |ms| ensures DatesShaped(ms[i].value) ==> DatesShaped(revived[i].value) {
        ReviveDatesShaped(ms[i].value);
      }
    case _ =>
  }

  /** The reviver's result on a parsed value is the one value that undoes
      to it, leaves no timestamp-shaped string and holds only dates of
      timestamp shape: every such string became a date of its own text, and
      everything else stayed where it was. */
  lemma {:induction false} ReviveCharacterised(v: JsonValue, r: JsonValue)
    requires NoDates(v)
    ensures r == Revive(v) <==> Unrevive(r) == v && NoTimestampStrings(r) && DatesShaped(r)
    decreases v
  {
    if r == Revive(v) {
      UnreviveRevive(v);
      NoDatesShaped(v);
      ReviveDatesShaped(v);
    } else if Unrevive(r) == v && NoTimestampStrings(r) && DatesShaped(r) {
      RevivedUnique(v, r);
    }
  }

  /** Only one value undoes to `v`, leaves no timestamp-shaped string and
      holds only dates of timestamp shape: `Revive(v)`. */
  lemma {:induction false} RevivedUnique(v: JsonValue, r: JsonValue)
    requires NoDates(v) && Unrevive(r) == v && NoTimestampStrings(r) && DatesShaped(r)
    ensures r == Revive(v)
    decreases v
  {
    match r
    case JArray(ritems) =>
      var items := v.items;
      assert |items| == |ritems|;
      var revived := seq(|items|, i requires 0 <= i < |items| => Revive(items[i]));
      assert Revive(v) == JArray(revived);
      forall i | 0 <= i < |items| ensures ritems[i] == revived[i] {
        assert Unrevive(ritems[i]) == items[i];
        RevivedUnique(items[i], ritems[i]);
      }
    case JObject(rms) =>
      var ms := v.members;
      assert |ms| == |rms|;
      var revived := seq(|ms|, i requires 0 <= i < |ms| => ReviveMember(ms[i], v));
      assert Revive(v) == JObject(revived);
      forall i | 0 <= i < |ms| ensures rms[i] == revived[i] {
        assert UnreviveMember(rms[i], r) == ms[i];
        RevivedUnique(ms[i].value, rms[i].value);
      }
    case JDate(s) =>
      TimestampPatternMeaning(s);
    case JString(s) =>
      TimestampPatternMeaning(s);
    case _ =>
  }

  // ---------------------------------------------------------------------
  // Choosing the initial state
  // ---------------------------------------------------------------------

  /** What `window.localStorage.getItem(key)` gave. */
  datatype StoredItem =
    | ReadFailed            // the access threw (storage disabled, ...)
    | Missing               // `null`: nothing stored under the key
    | Item(text: JsString)  // the stored text, possibly empty

  /** The initial state of the hook. `hasWindow` says whether the code runs in
      a browser; `parse` is `JSON.parse` on its own, `None` where it throws.
      The initial value is used without a window, when reading throws, when
      the item is missing or empty, and when parsing fails; otherwise the
      parsed value with its timestamp strings revived. */
  function InitialState(hasWindow: bool, item: StoredItem, parse: JsString -> Option<JsonValue>,
                        initialValue: JsonValue): (r: JsonValue)
    ensures !hasWindow ==> r == initialValue
    ensures item.ReadFailed? || item.Missing? || item == Item([]) ==> r == initialValue
    ensures hasWindow && item.Item? && item.text != [] ==>
      match parse(item.text)
      case None => r == initialValue
      case Some(v) => r == Revive(v) && NoTimestampStrings(r)
  {
    if !hasWindow then initialValue
    else match item
      case ReadFailed => initialValue
      case Missing => initialValue
      case Item(text) =>
        if text == [] then initialValue
        else match parse(text)
          case None => initialValue
          case Some(v) => Revive(v)
  }

  /** A stored value without timestamp-shaped strings is read back as it was
      parsed. */
  lemma StoredValueReadBack(text: JsString, parse: JsString -> Option<JsonValue>,
                            v: JsonValue, initialValue: JsonValue)
    requires text != [] && parse(text) == Some(v) && NoTimestampStrings(v)
    ensures InitialState(true, Item(text), parse, initialValue) == v
  {
    ReviveMeaning(v);
  }
}
