/** `DefaultLogFormatter`: renders one log line `[<time>] [<level>] <message>`
    after interpolating `{key}` placeholders from the context. */
module DefaultLogFormatter {
  import opened Wrappers
  import opened PhpValues
  import opened PhpString
  import opened Decimal

  /** The exception `json_encode` throws under `JSON_THROW_ON_ERROR`. */
  datatype FormatError = JsonEncodeFailed

  /** `stringify`: the value kinds are tried in a fixed order (null, bool,
      other scalar, `Stringable`, array, other object, anything else).
      Only the array case can fail. */
  function Stringify(value: Value, host: Host): (r: Result<string, FormatError>)
    ensures r.Err? <==> value.Array? && host.jsonEncode(value.entries).None?
    ensures value.Null? ==> r == Ok("null")
    ensures value.Bool? ==> r == Ok(if value.b then "true" else "false")
    ensures value.Int? ==> r == Ok(IntToString(value.i)) && ParseInt(r.value) == Some(value.i)
    ensures value.Str? ==> r == Ok(value.s)
    ensures value.Array? && host.jsonEncode(value.entries).Some? ==> r == Ok(host.jsonEncode(value.entries).value)
    ensures value.Object? && value.obj.stringable ==> r == Ok(host.toString(value.obj))
    ensures value.Object? && !value.obj.stringable ==> r == Ok("[object " + value.obj.className + "]")
    ensures value.Resource? ==> r == Ok("[unknown type]")
  {
    match value
    case Null => Ok("null")
    case Bool(b) => Ok(if b then "true" else "false")
    case Int(i) => IntToStringRoundTrip(i); Ok(IntToString(i))
    case Str(s) => Ok(s)
    case Object(obj) =>
      if obj.stringable then Ok(host.toString(obj)) else Ok("[object " + obj.className + "]")
    case Array(entries) =>
      (match host.jsonEncode(entries)
       case Some(json) => Ok(json)
       case None => Err(JsonEncodeFailed))
    case Resource => Ok("[unknown type]")
  }

  /** The replacement table the `foreach` over the context builds: for each
      entry in order whose placeholder occurs in the message, the placeholder
      maps to the stringified value; entries whose placeholder does not occur
      are skipped without stringifying their value. */
  function Replacements(message: string, context: Context, host: Host): (r: Result<map<string, string>, FormatError>)
    ensures r.Ok? ==> forall p :: p in r.value ==> Contains(message, p)
    decreases |context|
  {
    if context == [] then Ok(map[])
    else AddEntry(message, Replacements(message, context[..|context| - 1], host), context[|context| - 1], host)
  }

  /** One iteration of the `foreach` in `interpolate`. */
  function AddEntry(message: string, prior: Result<map<string, string>, FormatError>, entry: (string, Value), host: Host)
    : (r: Result<map<string, string>, FormatError>)
    ensures prior.Err? ==> r == prior
    ensures !Contains(message, Placeholder(entry.0)) ==> r == prior
    ensures prior.Ok? && r.Err? ==> Contains(message, Placeholder(entry.0)) && Stringify(entry.1, host).Err?
    ensures r.Ok? ==> prior.Ok? && forall p :: p in prior.value ==> p in r.value
    ensures r.Ok? ==> forall p :: p in r.value && p != Placeholder(entry.0) ==> p in prior.value && r.value[p] == prior.value[p]
  {
    var (key, value) := entry;
    if prior.Err? || !Contains(message, Placeholder(key)) then prior
    else
      match Stringify(value, host)
      case Err(e) => Err(e)
      case Ok(text) => Ok(prior.value[Placeholder(key) := text])
  }

  /** `interpolate`: an empty context leaves the message as it is; otherwise
      the replacement table is applied with one `strtr` pass. */
  function Interpolation(message: string, context: Context, host: Host): (r: Result<string, FormatError>)
    ensures context == [] ==> r == Ok(message)
    ensures r.Err? <==> Replacements(message, context, host).Err?
    ensures r.Err? ==> r.error == Replacements(message, context, host).error
    ensures Replacements(message, context, host) == Ok(map[]) ==> r == Ok(message)
  {
    if context == [] then Ok(message)
    else
      match Replacements(message, context, host)
      case Err(e) => Err(e)
      case Ok(pairs) => Ok(Strtr(message, pairs))
  }

  /** Once a prefix of the context fails, the whole context fails with the same error. */
  lemma {:induction false} ReplacementsErrorPersists(message: string, context: Context, host: Host, i: nat)
    requires i <= |context| && Replacements(message, context[..i], host).Err?
    ensures Replacements(message, context, host) == Replacements(message, context[..i], host)
    decreases |context| - i
  {
    if i < |context| {
      var next := context[..i + 1];
      assert next[..|next| - 1] == context[..i];
      ReplacementsErrorPersists(message, context, host, i + 1);
    } else {
      assert context[..i] == context;
    }
  }

  /** The loop of `interpolate`, with the same early exit as the exception
      `stringify` throws. */
  method Interpolate(message: string, context: Context, host: Host) returns (r: Result<string, FormatError>)
    ensures r == Interpolation(message, context, host)
  {
    if context == [] {
      return Ok(message);
    }
    var replace: map<string, string> := map[];
    var i := 0;
    while i < |context|
      invariant 0 <= i <= |context|
      invariant Replacements(message, context[..i], host) == Ok(replace)
    {
      var (key, value) := context[i];
      ReplacementsNext(message, context, host, i);
      var placeholder := Placeholder(key);
      if Contains(message, placeholder) {
        var text := Stringify(value, host);
        if text.Err? {
          ReplacementsErrorPersists(message, context, host, i + 1);
          return Err(text.error);
        }
        replace := replace[placeholder := text.value];
      }
      i := i + 1;
    }
    assert context[..i] == context;
    r := Ok(Strtr(message, replace));
  }

  lemma ReplacementsNext(message: string, context: Context, host: Host, i: nat)
    requires i < |context|
    ensures Replacements(message, context[..i + 1], host)
         == AddEntry(message, Replacements(message, context[..i], host), context[i], host)
  {
    ReplacementsUnfold(message, context[..i + 1], host);
    assert context[..i + 1][..i] == context[..i];
  }

  /** Context keys are unique, as PHP array keys are. */
  predicate DistinctKeys(context: Context)
  {
    forall i, j :: 0 <= i < j < |context| ==> context[i].0 != context[j].0
  }

  lemma PlaceholderInjective(a: string, b: string)
    requires Placeholder(a) == Placeholder(b)
    ensures a == b
  {
    assert a == Placeholder(a)[1..|a| + 1];
  }

  /** One step of the `foreach`: the table grows by the placeholder of the
      last entry exactly when that placeholder occurs in the message. */
  lemma ReplacementsStep(message: string, context: Context, host: Host, p: string)
    requires context != [] && Replacements(message, context, host).Ok?
    ensures Replacements(message, context[..|context| - 1], host).Ok?
    ensures p in Replacements(message, context, host).value <==>
      p in Replacements(message, context[..|context| - 1], host).value
      || (p == Placeholder(context[|context| - 1].0) && Contains(message, p))
  {
  }

  /** The placeholders of the context keys, found in the first `n` entries. */
  predicate KeyPlaceholderAmong(context: Context, n: nat, p: string)
    requires n <= |context|
  {
    exists j :: 0 <= j < n && Placeholder(context[j].0) == p
  }

  lemma KeyPlaceholderPrefix(context: Context, p: string)
    requires context != []
    ensures KeyPlaceholderAmong(context, |context|, p) <==>
      KeyPlaceholderAmong(context[..|context| - 1], |context| - 1, p)
      || p == Placeholder(context[|context| - 1].0)
  {
    if KeyPlaceholderAmong(context, |context|, p) {
      KeyPlaceholderShrink(context, p);
    }
    if KeyPlaceholderAmong(context[..|context| - 1], |context| - 1, p) || p == Placeholder(context[|context| - 1].0) {
      KeyPlaceholderGrow(context, p);
    }
  }

  lemma KeyPlaceholderShrink(context: Context, p: string)
    requires context != [] && KeyPlaceholderAmong(context, |context|, p)
    ensures KeyPlaceholderAmong(context[..|context| - 1], |context| - 1, p) || p == Placeholder(context[|context| - 1].0)
  {
    var n := |context| - 1;
    var j :| 0 <= j < n + 1 && Placeholder(context[j].0) == p;
    if j < n {
      assert context[..n][j] == context[j];
    }
  }

  lemma KeyPlaceholderGrow(context: Context, p: string)
    requires context != []
    requires KeyPlaceholderAmong(context[..|context| - 1], |context| - 1, p) || p == Placeholder(context[|context| - 1].0)
    ensures KeyPlaceholderAmong(context, |context|, p)
  {
    var n := |context| - 1;
    if KeyPlaceholderAmong(context[..n], n, p) {
      var j :| 0 <= j < n && Placeholder(context[..n][j].0) == p;
      assert context[j] == context[..n][j];
    } else {
      assert Placeholder(context[n].0) == p;
    }
  }

  /** The table holds exactly the placeholders of context keys that occur in the message. */
  lemma {:induction false} ReplacementsDomain(message: string, context: Context, host: Host, p: string)
    requires Replacements(message, context, host).Ok?
    ensures p in Replacements(message, context, host).value <==>
      Contains(message, p) && KeyPlaceholderAmong(context, |context|, p)
    decreases |context|
  {
    if context != [] {
      ReplacementsStep(message, context, host, p);
      ReplacementsDomain(message, context[..|context| - 1], host, p);
      KeyPlaceholderPrefix(context, p);
    }
  }

  /** With unique keys, a key whose placeholder occurs in the message maps to
      its own stringified value. */
  lemma {:induction false} ReplacementsValue(message: string, context: Context, host: Host, j: nat)
    requires DistinctKeys(context) && j < |context|
    requires Contains(message, Placeholder(context[j].0))
    requires Replacements(message, context, host).Ok?
    ensures Stringify(context[j].1, host).Ok?
    ensures Placeholder(context[j].0) in Replacements(message, context, host).value
    ensures Replacements(message, context, host).value[Placeholder(context[j].0)]
         == Stringify(context[j].1, host).value
    decreases |context|
  {
    var front := context[..|context| - 1];
    var (key, value) := context[|context| - 1];
    if j < |front| {
      assert front[j] == context[j];
      assert DistinctKeys(front) by {
        forall a, b | 0 <= a < b < |front| ensures front[a].0 != front[b].0 {
          assert front[a] == context[a] && front[b] == context[b];
        }
      }
      ReplacementsValue(message, front, host, j);
      if Placeholder(key) == Placeholder(context[j].0) {
        PlaceholderInjective(key, context[j].0);
      }
    }
  }

  /** Some entry among the first `n` has a placeholder that occurs in the
      message and a value that cannot be stringified. */
  predicate FailingEntryAmong(message: string, context: Context, n: nat, host: Host)
    requires n <= |context|
  {
    exists j :: 0 <= j < n && Contains(message, Placeholder(context[j].0)) && Stringify(context[j].1, host).Err?
  }

  lemma FailingEntryPrefix(message: string, context: Context, host: Host)
    requires context != []
    ensures var last := context[|context| - 1];
      FailingEntryAmong(message, context, |context|, host) <==>
        FailingEntryAmong(message, context[..|context| - 1], |context| - 1, host)
        || (Contains(message, Placeholder(last.0)) && Stringify(last.1, host).Err?)
  {
    var last := context[|context| - 1];
    if FailingEntryAmong(message, context, |context|, host) {
      FailingEntryShrink(message, context, host);
    }
    if FailingEntryAmong(message, context[..|context| - 1], |context| - 1, host)
       || (Contains(message, Placeholder(last.0)) && Stringify(last.1, host).Err?) {
      FailingEntryGrow(message, context, host);
    }
  }

  lemma FailingEntryShrink(message: string, context: Context, host: Host)
    requires context != [] && FailingEntryAmong(message, context, |context|, host)
    ensures var last := context[|context| - 1];
      FailingEntryAmong(message, context[..|context| - 1], |context| - 1, host)
      || (Contains(message, Placeholder(last.0)) && Stringify(last.1, host).Err?)
  {
    var n := |context| - 1;
    var j :| 0 <= j < n + 1 && Contains(message, Placeholder(context[j].0)) && Stringify(context[j].1, host).Err?;
    if j < n {
      assert context[..n][j] == context[j];
    }
  }

  lemma FailingEntryGrow(message: string, context: Context, host: Host)
    requires context != []
    requires var last := context[|context| - 1];
      FailingEntryAmong(message, context[..|context| - 1], |context| - 1, host)
      || (Contains(message, Placeholder(last.0)) && Stringify(last.1, host).Err?)
    ensures FailingEntryAmong(message, context, |context|, host)
  {
    var n := |context| - 1;
    if FailingEntryAmong(message, context[..n], n, host) {
      var j :| 0 <= j < n && Contains(message, Placeholder(context[..n][j].0)) && Stringify(context[..n][j].1, host).Err?;
      assert context[j] == context[..n][j];
    } else {
      assert Contains(message, Placeholder(context[n].0)) && Stringify(context[n].1, host).Err?;
    }
  }

  /** Interpolation fails exactly when some context key whose placeholder
      occurs in the message has a value that cannot be stringified; values of
      keys that do not occur are never looked at. */
  lemma {:induction false} ReplacementsFailure(message: string, context: Context, host: Host)
    ensures Replacements(message, context, host).Err? <==> FailingEntryAmong(message, context, |context|, host)
    decreases |context|
  {
    if context != [] {
      ReplacementsUnfold(message, context, host);
      ReplacementsFailure(message, context[..|context| - 1], host);
      FailingEntryPrefix(message, context, host);
    }
  }

  /** Dropping the last entry of a context. */
  lemma DropLast(before: Context, after: Context)
    requires after != []
    ensures var whole := before + after;
      whole[..|whole| - 1] == before + after[..|after| - 1] && whole[|whole| - 1] == after[|after| - 1]
  {
  }

  lemma ReplacementsUnfold(message: string, context: Context, host: Host)
    requires context != []
    ensures Replacements(message, context, host)
         == AddEntry(message, Replacements(message, context[..|context| - 1], host), context[|context| - 1], host)
  {
  }

  /** A context entry whose placeholder does not occur in the message can be
      dropped without changing the table, even if its value cannot be stringified. */
  lemma {:induction false} UnmatchedEntryIgnored(message: string, before: Context, key: string, value: Value, after: Context, host: Host)
    requires !Contains(message, Placeholder(key))
    ensures Replacements(message, before + [(key, value)] + after, host) == Replacements(message, before + after, host)
    decreases |after|
  {
    var entered := before + [(key, value)];
    if after == [] {
      assert entered + after == entered && before + after == before;
      UnmatchedLastEntry(message, before, key, value, host);
    } else {
      var shorter := after[..|after| - 1];
      DropLast(entered, after);
      DropLast(before, after);
      UnmatchedEntryIgnored(message, before, key, value, shorter, host);
      SameLastEntry(message, entered + after, before + after, host);
    }
  }

  /** An unmatched last entry leaves the table as it was. */
  lemma UnmatchedLastEntry(message: string, before: Context, key: string, value: Value, host: Host)
    requires !Contains(message, Placeholder(key))
    ensures Replacements(message, before + [(key, value)], host) == Replacements(message, before, host)
  {
    var entered := before + [(key, value)];
    ReplacementsUnfold(message, entered, host);
    assert entered[..|entered| - 1] == before;
  }

  /** Two contexts with the same table before the same last entry have the same table. */
  lemma SameLastEntry(message: string, x: Context, y: Context, host: Host)
    requires x != [] && y != [] && x[|x| - 1] == y[|y| - 1]
    requires Replacements(message, x[..|x| - 1], host) == Replacements(message, y[..|y| - 1], host)
    ensures Replacements(message, x, host) == Replacements(message, y, host)
  {
    ReplacementsUnfold(message, x, host);
    ReplacementsUnfold(message, y, host);
  }

  /** The same for the whole of `interpolate`. */
  lemma UnmatchedKeyIgnored(message: string, before: Context, key: string, value: Value, after: Context, host: Host)
    requires !Contains(message, Placeholder(key))
    ensures Interpolation(message, before + [(key, value)] + after, host) == Interpolation(message, before + after, host)
  {
    UnmatchedEntryIgnored(message, before, key, value, after, host);
  }

  /** When no context key has a brace in it, the table's keys are all placeholders. */
  lemma ReplacementsArePlaceholders(message: string, context: Context, host: Host)
    requires forall j :: 0 <= j < |context| ==> BraceFree(context[j].0)
    requires Replacements(message, context, host).Ok?
    ensures PlaceholderKeys(Replacements(message, context, host).value)
  {
    var pairs := Replacements(message, context, host).value;
    forall p {:trigger IsPlaceholder(p)} | p in pairs ensures IsPlaceholder(p) {
      ReplacementsDomain(message, context, host, p);
      var j :| 0 <= j < |context| && Placeholder(context[j].0) == p;
      assert BraceFree(context[j].0);
    }
  }

  /** Every context key is free of braces. */
  predicate BraceFreeKeys(context: Context)
  {
    forall j :: 0 <= j < |context| ==> BraceFree(context[j].0)
  }

  /** An empty context leaves the message as it is, placeholders included. */
  lemma EmptyContextPassesThrough(message: string, host: Host)
    ensures Interpolation(message, [], host) == Ok(message)
  {
  }

  /** Every occurrence of the placeholder of a context key is replaced by the
      stringified value of that key; the text on both sides is interpolated on
      its own and the inserted value is not scanned for placeholders again. */
  lemma InterpolationReplacesOccurrence(message: string, context: Context, host: Host, a: string, j: nat, b: string)
    requires DistinctKeys(context) && BraceFreeKeys(context) && j < |context|
    requires message == a + Placeholder(context[j].0) + b
    requires Interpolation(message, context, host).Ok?
    ensures Replacements(message, context, host).Ok? && Stringify(context[j].1, host).Ok?
    ensures var pairs := Replacements(message, context, host).value;
      Interpolation(message, context, host).value
        == Strtr(a, pairs) + Stringify(context[j].1, host).value + Strtr(b, pairs)
  {
    var key := context[j].0;
    ContainsInfix(a, Placeholder(key), b);
    ReplacementsValue(message, context, host, j);
    ReplacementsArePlaceholders(message, context, host);
    PlaceholderOccurrenceReplaced(a, key, b, Replacements(message, context, host).value);
  }

  /** A placeholder whose name is not a context key stays in the text literally. */
  lemma InterpolationKeepsUnknownPlaceholder(message: string, context: Context, host: Host, a: string, key: string, b: string)
    requires BraceFreeKeys(context) && BraceFree(key)
    requires forall j :: 0 <= j < |context| ==> context[j].0 != key
    requires message == a + Placeholder(key) + b
    requires Interpolation(message, context, host).Ok?
    ensures Replacements(message, context, host).Ok?
    ensures var pairs := Replacements(message, context, host).value;
      Interpolation(message, context, host).value == Strtr(a, pairs) + Placeholder(key) + Strtr(b, pairs)
  {
    var p := Placeholder(key);
    var pairs := Replacements(message, context, host).value;
    ReplacementsDomain(message, context, host, p);
    ReplacementsArePlaceholders(message, context, host);
    ConcatAssoc(a, p, b);
    ScanSplitsBeforeBrace(a, p + b, pairs);
    UnknownPlaceholderKept(key, b, pairs);
    ConcatAssoc(Strtr(a, pairs), p, Strtr(b, pairs));
  }

  /** The wall-clock reading `date()` formats: local time, to the second. */
  datatype Clock = Clock(year: nat, month: nat, day: nat, hour: nat, minute: nat, second: nat)

  /** A numeric `date()` field: the decimal digits, zero-padded to `width`. */
  function Field(n: nat, width: nat): (r: string)
    requires width >= 1
    ensures AllDigits(r) && |r| >= width
    ensures n < Pow10(width) ==> |r| == width
  {
    if n < Pow10(width) then DigitsFit(n, width); ZeroPad(Digits(n), width)
    else ZeroPad(Digits(n), width)
  }

  /** A field reads back as the number it was written from. */
  lemma FieldValue(n: nat, width: nat)
    requires width >= 1
    ensures DigitsValue(Field(n, width)) == n
  {
    DigitsRoundTrip(n);
    ZeroPadValue(Digits(n), width);
  }

  /** `date('Y-m-d H:i:s')`: three dash-separated date fields, a space and
      three colon-separated time fields; the text never contains a bracket. */
  function DateText(now: Clock): (r: string)
    ensures NoBracket(r)
  {
    var date := Join3(Field(now.year, 4), '-', Field(now.month, 2), Field(now.day, 2));
    var time := Join3(Field(now.hour, 2), ':', Field(now.minute, 2), Field(now.second, 2));
    NoBracketConcat(date, " ");
    NoBracketConcat(date + " ", time);
    date + " " + time
  }

  predicate NoBracket(s: string) { '[' !in s && ']' !in s }

  lemma DigitsNoBracket(s: string)
    requires AllDigits(s)
    ensures NoBracket(s)
  {
  }

  lemma NoBracketConcat(a: string, b: string)
    requires NoBracket(a) && NoBracket(b)
    ensures NoBracket(a + b)
  {
  }

  /** Three fields joined by one separator. */
  function Join3(a: string, sep: char, b: string, c: string): (r: string)
    requires AllDigits(a) && AllDigits(b) && AllDigits(c) && sep != '[' && sep != ']'
    ensures NoBracket(r)
    ensures |r| == |a| + |b| + |c| + 2 && r[|a|] == sep && r[|a| + 1 + |b|] == sep
  {
    DigitsNoBracket(a);
    DigitsNoBracket(b);
    DigitsNoBracket(c);
    NoBracketConcat(a, [sep]);
    NoBracketConcat(a + [sep], b);
    NoBracketConcat(a + [sep] + b, [sep]);
    NoBracketConcat(a + [sep] + b + [sep], c);
    a + [sep] + b + [sep] + c
  }

  /** The three fields can be cut back out of their join. */
  lemma Join3Parts(a: string, sep: char, b: string, c: string)
    requires AllDigits(a) && AllDigits(b) && AllDigits(c) && sep != '[' && sep != ']'
    ensures var r := Join3(a, sep, b, c);
      r[..|a|] == a && r[|a| + 1..|a| + 1 + |b|] == b && r[|a| + 2 + |b|..] == c
  {
    var r := Join3(a, sep, b, c);
    assert r == a + ([sep] + b + [sep] + c);
    assert r == (a + [sep] + b + [sep]) + c;
    assert r[|a| + 1..] == b + ([sep] + c);
  }

  /** When every field fits its width, the date has the fixed layout
      `YYYY-MM-DD HH:MM:SS`. */
  lemma DateTextLayout(now: Clock)
    requires now.year < 10000 && now.month < 100 && now.day < 100
    requires now.hour < 100 && now.minute < 100 && now.second < 100
    ensures var r := DateText(now);
      |r| == 19 && r[4] == '-' && r[7] == '-' && r[10] == ' ' && r[13] == ':' && r[16] == ':'
  {
    var year, month, day := Field(now.year, 4), Field(now.month, 2), Field(now.day, 2);
    var hour, minute, second := Field(now.hour, 2), Field(now.minute, 2), Field(now.second, 2);
    assert |year| == 4 && |month| == 2 && |day| == 2 && |hour| == 2 && |minute| == 2 && |second| == 2;
    var date := Join3(year, '-', month, day);
    var time := Join3(hour, ':', minute, second);
    assert DateText(now) == date + " " + time;
    SpliceSeparators(date, time);
  }

  lemma SpliceSeparators(date: string, time: string)
    requires |date| == 10 && |time| == 8
    ensures var r := date + " " + time;
      |r| == 19 && r[4] == date[4] && r[7] == date[7] && r[10] == ' ' && r[13] == time[2] && r[16] == time[5]
  {
  }

  /** When every field fits its width, each field of the date denotes its
      part of the clock reading. */
  lemma DateTextFields(now: Clock)
    requires now.year < 10000 && now.month < 100 && now.day < 100
    requires now.hour < 100 && now.minute < 100 && now.second < 100
    ensures var r := DateText(now);
      |r| == 19
      && AllDigits(r[..4]) && DigitsValue(r[..4]) == now.year
      && AllDigits(r[5..7]) && DigitsValue(r[5..7]) == now.month
      && AllDigits(r[8..10]) && DigitsValue(r[8..10]) == now.day
      && AllDigits(r[11..13]) && DigitsValue(r[11..13]) == now.hour
      && AllDigits(r[14..16]) && DigitsValue(r[14..16]) == now.minute
      && AllDigits(r[17..19]) && DigitsValue(r[17..19]) == now.second
  {
    var date := Join3(Field(now.year, 4), '-', Field(now.month, 2), Field(now.day, 2));
    var time := Join3(Field(now.hour, 2), ':', Field(now.minute, 2), Field(now.second, 2));
    JoinedFields(now.year, 4, '-', now.month, now.day);
    JoinedFields(now.hour, 2, ':', now.minute, now.second);
    SpliceParts(date, time);
  }

  /** Three fields that fit their widths, joined, read back as their numbers. */
  lemma JoinedFields(x: nat, width: nat, sep: char, y: nat, z: nat)
    requires width >= 1 && x < Pow10(width) && y < 100 && z < 100 && sep != '[' && sep != ']'
    ensures var r := Join3(Field(x, width), sep, Field(y, 2), Field(z, 2));
      |r| == width + 6
      && AllDigits(r[..width]) && DigitsValue(r[..width]) == x
      && AllDigits(r[width + 1..width + 3]) && DigitsValue(r[width + 1..width + 3]) == y
      && AllDigits(r[width + 4..]) && DigitsValue(r[width + 4..]) == z
  {
    var a, b, c := Field(x, width), Field(y, 2), Field(z, 2);
    assert |a| == width && |b| == 2 && |c| == 2;
    FieldValue(x, width);
    FieldValue(y, 2);
    FieldValue(z, 2);
    Join3Parts(a, sep, b, c);
  }

  /** The slices of `date + " " + time` are the slices of its two halves. */
  lemma SpliceParts(date: string, time: string)
    requires |date| == 10 && |time| == 8
    ensures var r := date + " " + time;
      r[..4] == date[..4] && r[5..7] == date[5..7] && r[8..10] == date[8..]
      && r[11..13] == time[..2] && r[14..16] == time[3..5] && r[17..19] == time[6..]
  {
    var r := date + " " + time;
    assert r[..10] == date && r[11..] == time;
    assert r[17..19] == r[11..][6..];
  }

  /** `PHP_EOL` on the platforms the model stands for. */
  const EOL: string := "\n"

  /** `(string) $message`: a `Stringable` message contributes its `__toString`. */
  function MessageText(message: Message, host: Host): (r: string)
    ensures message.Text? ==> r == message.text
    ensures message.StringableMessage? ==> r == host.toString(message.obj)
  {
    match message
    case Text(text) => text
    case StringableMessage(obj) => host.toString(obj)
  }

  /** The line layout `[<timestamp>] [<level>] <message>` followed by the end of line. */
  function Line(timestamp: string, level: string, text: string): (r: string)
    ensures |r| == |timestamp| + |level| + |text| + 7
    ensures r[0] == '[' && r[|r| - 1] == '\n'
  {
    "[" + timestamp + "] [" + level + "] " + text + EOL
  }

  /** `format`: stringify the message, interpolate it and lay out the line. */
  function Format(level: string, message: Message, context: Context, now: Clock, host: Host): (r: Result<string, FormatError>)
    ensures r.Ok? <==> Interpolation(MessageText(message, host), context, host).Ok?
    ensures r.Err? ==> r.error == Interpolation(MessageText(message, host), context, host).error
    ensures r.Ok? ==> |r.value| > 0 && r.value[0] == '[' && r.value[|r.value| - 1] == '\n'
    ensures r.Ok? ==> Contains(r.value, "[" + level + "]")
  {
    match Interpolation(MessageText(message, host), context, host)
    case Err(e) => Err(e)
    case Ok(text) =>
      LineContainsLevel(DateText(now), level, text);
      Ok(Line(DateText(now), level, text))
  }

  /** The three parts a consumer reads back from a line. */
  datatype LineParts = LineParts(timestamp: string, level: string, message: string)

  /** The position of the first `c` in `s`. */
  function IndexOf(s: string, c: char): (r: Option<nat>)
    ensures r.Some? ==> r.value < |s| && s[r.value] == c && c !in s[..r.value]
    ensures r.None? ==> c !in s
    decreases |s|
  {
    if s == [] then None
    else if s[0] == c then Some(0)
    else
      match IndexOf(s[1..], c)
      case None => None
      case Some(i) => assert s[..i + 1] == [s[0]] + s[1..][..i]; Some(i + 1)
  }

  /** Reads a line of the default layout back into its parts: the timestamp
      and the level end at the first `]` after their `[`, and the message is
      everything up to the final end of line. */
  function ParseLine(line: string): (r: Option<LineParts>)
    ensures r.Some? ==>
      ']' !in r.value.timestamp && ']' !in r.value.level
      && line == Line(r.value.timestamp, r.value.level, r.value.message)
  {
    if |line| < 2 || line[0] != '[' || line[|line| - 1] != '\n' then None
    else
      var body := line[1..|line| - 1];
      var r := ParseBody(body);
      if r.Some? then
        Unwrap(line);
        Wrap(body, r.value.timestamp, r.value.level, r.value.message);
        r
      else r
  }

  lemma Unwrap(line: string)
    requires |line| >= 2 && line[0] == '[' && line[|line| - 1] == '\n'
    ensures line == "[" + line[1..|line| - 1] + "\n"
  {
  }

  lemma Wrap(body: string, timestamp: string, level: string, text: string)
    requires body == timestamp + "] [" + level + "] " + text
    ensures "[" + body + "\n" == Line(timestamp, level, text)
  {
  }

  /** `<timestamp>] [<level>] <message>` */
  function ParseBody(body: string): (r: Option<LineParts>)
    ensures r.Some? ==>
      ']' !in r.value.timestamp && ']' !in r.value.level
      && body == r.value.timestamp + "] [" + r.value.level + "] " + r.value.message
  {
    match IndexOf(body, ']')
    case None => None
    case Some(i) =>
      var rest := body[i + 1..];
      if |rest| < 2 || rest[..2] != " [" then None
      else
        var r := ParseLevelPart(body[..i], rest[2..]);
        if r.None? then None
        else
          BodySplit(body, i, r.value.level, r.value.message);
          r
  }

  /** `<level>] <message>`, once the timestamp is known. */
  function ParseLevelPart(timestamp: string, inner: string): (r: Option<LineParts>)
    ensures r.Some? ==>
      r.value.timestamp == timestamp && ']' !in r.value.level
      && inner == r.value.level + "] " + r.value.message
  {
    match IndexOf(inner, ']')
    case None => None
    case Some(k) =>
      var tail := inner[k + 1..];
      if |tail| < 1 || tail[0] != ' ' then None
      else
        LevelSplit(inner, k);
        Some(LineParts(timestamp, inner[..k], tail[1..]))
  }

  /** A `]` at `i` followed by ` [` and a level part splits the body. */
  lemma BodySplit(body: string, i: nat, level: string, message: string)
    requires i < |body| && body[i] == ']'
    requires |body[i + 1..]| >= 2 && body[i + 1..][..2] == " ["
    requires body[i + 1..][2..] == level + "] " + message
    ensures body == body[..i] + "] [" + level + "] " + message
  {
    assert body == body[..i] + [body[i]] + body[i + 1..];
    assert body[i + 1..] == " [" + body[i + 1..][2..];
  }

  /** A `]` at `k` followed by a space splits the level part. */
  lemma LevelSplit(inner: string, k: nat)
    requires k < |inner| && inner[k] == ']'
    requires |inner[k + 1..]| >= 1 && inner[k + 1..][0] == ' '
    ensures inner == inner[..k] + "] " + inner[k + 1..][1..]
  {
    assert inner == inner[..k] + [inner[k]] + inner[k + 1..];
    assert inner[k + 1..] == " " + inner[k + 1..][1..];
  }

  /** The first `c` of `a + [c] + b` is the one after `a` when `a` holds none. */
  lemma {:induction false} IndexOfFirst(a: string, c: char, b: string)
    requires c !in a
    ensures IndexOf(a + [c] + b, c) == Some(|a|)
    decreases |a|
  {
    if a != [] {
      assert (a + [c] + b)[1..] == a[1..] + [c] + b;
      IndexOfFirst(a[1..], c, b);
    }
  }

  /** Reading a line back yields the timestamp, level and message it was
      laid out from, provided neither the timestamp nor the level holds `]`. */
  lemma LineRoundTrip(timestamp: string, level: string, text: string)
    requires ']' !in timestamp && ']' !in level
    ensures ParseLine(Line(timestamp, level, text)) == Some(LineParts(timestamp, level, text))
  {
    var body := timestamp + "] [" + level + "] " + text;
    LineBody(timestamp, level, text);
    BodyRoundTrip(timestamp, level, text);
    LevelPartRoundTrip(timestamp, level, text);
  }

  lemma LineBody(timestamp: string, level: string, text: string)
    ensures var line := Line(timestamp, level, text);
      |line| >= 2 && line[0] == '[' && line[|line| - 1] == '\n'
      && line[1..|line| - 1] == timestamp + "] [" + level + "] " + text
  {
    var line := Line(timestamp, level, text);
    assert line == "[" + (timestamp + "] [" + level + "] " + text) + "\n";
  }

  lemma BodyRoundTrip(timestamp: string, level: string, text: string)
    requires ']' !in timestamp
    ensures ParseBody(timestamp + "] [" + level + "] " + text)
         == ParseLevelPart(timestamp, level + "] " + text)
  {
    var body := timestamp + "] [" + level + "] " + text;
    var after := " [" + level + "] " + text;
    assert body == timestamp + [']'] + after;
    IndexOfFirst(timestamp, ']', after);
    assert body[|timestamp| + 1..] == after;
    assert body[..|timestamp|] == timestamp;
    assert after[2..] == level + "] " + text;
  }

  lemma LevelPartRoundTrip(timestamp: string, level: string, text: string)
    requires ']' !in level
    ensures ParseLevelPart(timestamp, level + "] " + text) == Some(LineParts(timestamp, level, text))
  {
    var inner := level + "] " + text;
    assert inner == level + [']'] + (" " + text);
    IndexOfFirst(level, ']', " " + text);
    assert inner[|level| + 1..] == " " + text;
    assert inner[..|level|] == level;
  }

  lemma LineContainsLevel(timestamp: string, level: string, text: string)
    ensures Contains(Line(timestamp, level, text), "[" + level + "]")
  {
    assert Line(timestamp, level, text) == ("[" + timestamp + "] ") + ("[" + level + "]") + (" " + text + EOL);
    ContainsInfix("[" + timestamp + "] ", "[" + level + "]", " " + text + EOL);
  }

  /** The formatter fails exactly when interpolation does; otherwise its line
      is the bracketed timestamp, the bracketed level name and the
      interpolated message, and it reads back into those three parts. */
  lemma FormatReadsBack(level: string, message: Message, context: Context, now: Clock, host: Host)
    requires ']' !in level
    ensures var f := Format(level, message, context, now, host);
      var i := Interpolation(MessageText(message, host), context, host);
      f.Ok? ==> ParseLine(f.value) == Some(LineParts(DateText(now), level, i.value))
  {
    var i := Interpolation(MessageText(message, host), context, host);
    if i.Ok? {
      var ts := DateText(now);
      assert Format(level, message, context, now, host) == Ok(Line(ts, level, i.value));
      LineRoundTrip(ts, level, i.value);
    }
  }

  /** A message that is a `Stringable` object is formatted from its
      `__toString` text exactly as that text would be. */
  lemma StringableMessageFormatted(level: string, obj: ObjRef, context: Context, now: Clock, host: Host)
    ensures Format(level, StringableMessage(obj), context, now, host)
         == Format(level, Text(host.toString(obj)), context, now, host)
  {
  }

  /** A message of two distinct placeholders with plain text around them,
      and a context of two string values, interpolates to the text with the
      values in place of the placeholders. The values are not scanned again:
      `"{a} {b}"` with `a` bound to `"{b}"` and `b` to `"B"` gives `"{b} B"`. */
  lemma TwoPlaceholders(message: string, context: Context, a: string, k1: string, mid: string, k2: string,
                        v1: string, v2: string, host: Host)
    requires '{' !in a && '{' !in mid && BraceFree(k1) && BraceFree(k2) && k1 != k2
    requires message == a + Placeholder(k1) + mid + Placeholder(k2)
    requires context == [(k1, Str(v1)), (k2, Str(v2))]
    ensures Interpolation(message, context, host) == Ok(a + v1 + mid + v2)
  {
    var tail := mid + Placeholder(k2);
    TwoPlaceholdersOk(message, context, host);
    var pairs := Replacements(message, context, host).value;
    ConcatAssoc(a, Placeholder(k1), tail);
    InterpolationReplacesOccurrence(message, context, host, a, 0, tail);
    ReplacementsArePlaceholders(message, context, host);
    ContainsInfix(a + Placeholder(k1) + mid, Placeholder(k2), []);
    assert message + [] == message;
    ReplacementsValue(message, context, host, 1);
    assert context[1].0 == k2 && Stringify(context[1].1, host).value == v2;
    assert pairs[Placeholder(k2)] == v2;
    TailReplaced(mid, k2, pairs);
    ScanCopiesText(a, [], pairs);
    assert a + [] == a;
    assert Interpolation(message, context, host).value == a + v1 + (mid + v2);
    ConcatAssoc(a + v1, mid, v2);
  }

  lemma TwoPlaceholdersOk(message: string, context: Context, host: Host)
    requires |context| == 2 && context[0].1.Str? && context[1].1.Str?
    ensures Interpolation(message, context, host).Ok?
  {
    ReplacementsFailure(message, context, host);
    if FailingEntryAmong(message, context, |context|, host) {
      var j :| 0 <= j < 2 && Contains(message, Placeholder(context[j].0)) && Stringify(context[j].1, host).Err?;
      assert false;
    }
  }

  lemma TailReplaced(mid: string, k: string, pairs: map<string, string>)
    requires '{' !in mid && BraceFree(k) && PlaceholderKeys(pairs) && Placeholder(k) in pairs
    ensures Strtr(mid + Placeholder(k), pairs) == mid + pairs[Placeholder(k)]
  {
    assert mid + Placeholder(k) == mid + Placeholder(k) + [];
    PlaceholderOccurrenceReplaced(mid, k, [], pairs);
    ScanCopiesText(mid, [], pairs);
    assert mid + [] == mid;
    assert pairs[Placeholder(k)] + [] == pairs[Placeholder(k)];
  }
}
