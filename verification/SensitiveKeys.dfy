/** Which dictionary keys name a secret. */
module SensitiveKeys {
  // `fold` is what case folding makes of one character (folding has no context); the results that need
  // it assume only that lower-case letters fold to themselves.

  import opened Wrappers
  import opened Redaction
  import opened RedactionLaws

  type Fold = char -> string

  const SENSITIVE_PARTS: set<string> := {
    "apikey", "authorization", "bearer", "clientsecret", "cookie", "credential", "passwd", "password",
    "privatekey", "refreshtoken", "secret", "sessioncookie", "token"
  }

  const SENSITIVE_SUFFIXES: set<string> := {
    "apikey", "authorization", "cookie", "credential", "password", "privatekey", "secret", "token"
  }

  predicate Alphanumeric(c: char) {
    'a' <= c <= 'z' || '0' <= c <= '9'
  }

  function Casefold(key: string, fold: Fold): string {
    if key == [] then [] else fold(key[0]) + Casefold(key[1..], fold)
  }

  function Compact(text: string): string {
    if text == [] then []
    else (if Alphanumeric(text[0]) then [text[0]] else []) + Compact(text[1..])
  }

  /** The maximal alphanumeric runs of `run + text`, where `run` is the run being read. */
  function Parts(text: string, run: string): set<string> {
    if text == [] then (if run == [] then {} else {run})
    else if Alphanumeric(text[0]) then Parts(text[1..], run + [text[0]])
    else (if run == [] then {} else {run}) + Parts(text[1..], [])
  }

  predicate EndsWith(text: string, suffix: string) {
    |suffix| <= |text| && text[|text| - |suffix|..] == suffix
  }

  predicate SensitiveKey(key: string, fold: Fold) {
    var folded := Casefold(key, fold);
    var compact := Compact(folded);
    || compact in SENSITIVE_PARTS
    || Parts(folded, []) * SENSITIVE_PARTS != {}
    || exists suffix <- SENSITIVE_SUFFIXES :: EndsWith(compact, suffix)
  }

  function Judge(fold: Fold): Verdict {
    (key: string) => SensitiveKey(key, fold)
  }

  ghost predicate FoldsLettersToThemselves(fold: Fold) {
    forall c :: 'a' <= c <= 'z' ==> fold(c) == [c]
  }

  predicate LowerCase(key: string) {
    forall i :: 0 <= i < |key| ==> 'a' <= key[i] <= 'z'
  }

  lemma {:induction false} LowerCaseFolds(key: string, fold: Fold)
    requires LowerCase(key) && FoldsLettersToThemselves(fold)
    ensures Casefold(key, fold) == key
  {
    if key != [] {
      LowerCaseFolds(key[1..], fold);
      assert key == [key[0]] + key[1..];
    }
  }

  lemma {:induction false} LowerCaseIsCompact(key: string)
    requires LowerCase(key)
    ensures Compact(key) == key
  {
    if key != [] {
      LowerCaseIsCompact(key[1..]);
      assert key == [key[0]] + key[1..];
    }
  }

  lemma {:induction false} LowerCaseIsOnePart(key: string, run: string)
    requires LowerCase(key) && run + key != []
    ensures Parts(key, run) == {run + key}
  {
    if key != [] {
      LowerCaseIsOnePart(key[1..], run + [key[0]]);
      assert run + [key[0]] + key[1..] == run + key;
    } else {
      assert run + key == run;
    }
  }

  /** On a lower-case key the verdict is: the key is one of the words, or ends in one of the suffixes. */
  lemma LowerCaseVerdict(key: string, fold: Fold)
    requires LowerCase(key) && FoldsLettersToThemselves(fold) && key != []
    ensures SensitiveKey(key, fold) <==>
              key in SENSITIVE_PARTS || exists suffix <- SENSITIVE_SUFFIXES :: EndsWith(key, suffix)
  {
    LowerCaseFolds(key, fold);
    LowerCaseIsCompact(key);
    LowerCaseIsOnePart(key, []);
    assert [] + key == key;
    if key in SENSITIVE_PARTS {
      assert key in Parts(key, []) * SENSITIVE_PARTS;
    } else {
      assert Parts(key, []) * SENSITIVE_PARTS == {};
    }
  }

  // ---- words between separators

  /** A stretch of alphanumerics that nothing alphanumeric adjoins. */
  ghost predicate MaximalRun(text: string, i: nat, j: nat) {
    && i < j <= |text|
    && (forall k :: i <= k < j ==> Alphanumeric(text[k]))
    && (i == 0 || !Alphanumeric(text[i - 1]))
    && (j == |text| || !Alphanumeric(text[j]))
  }

  ghost predicate IsRun(text: string, word: string) {
    exists i: nat, j: nat :: MaximalRun(text, i, j) && text[i..j] == word
  }

  predicate AllAlphanumeric(text: string) {
    forall k :: 0 <= k < |text| ==> Alphanumeric(text[k])
  }

  lemma OneRun(run: string, word: string)
    requires AllAlphanumeric(run)
    ensures IsRun(run, word) <==> run != [] && word == run
  {
    if run != [] {
      assert MaximalRun(run, 0, |run|) && run[0..|run|] == run;
    }
  }

  /** Runs past a separator are those of the text that follows it, moved along. */
  lemma ShiftRun(front: string, rest: string, i: nat, j: nat)
    requires front != [] && !Alphanumeric(front[|front| - 1]) && i < j <= |rest|
    ensures MaximalRun(front + rest, |front| + i, |front| + j) <==> MaximalRun(rest, i, j)
    ensures (front + rest)[|front| + i..|front| + j] == rest[i..j]
  {
    var whole, n := front + rest, |front|;
    assert forall k :: 0 <= k < |rest| ==> whole[n + k] == rest[k];
    assert i > 0 ==> whole[n + i - 1] == rest[i - 1];
    if MaximalRun(whole, n + i, n + j) {
      forall k | i <= k < j ensures Alphanumeric(rest[k]) {
        assert Alphanumeric(whole[n + k]);
      }
    }
    if MaximalRun(rest, i, j) {
      forall k | n + i <= k < n + j ensures Alphanumeric(whole[k]) {
        assert Alphanumeric(rest[k - n]);
      }
    }
  }

  lemma FirstRun(run: string, separator: char, rest: string)
    requires AllAlphanumeric(run) && !Alphanumeric(separator)
    ensures var whole := run + [separator] + rest;
            && (run != [] ==> MaximalRun(whole, 0, |run|) && whole[0..|run|] == run)
            && forall i: nat, j: nat :: i <= |run| && MaximalRun(whole, i, j) ==> i == 0 && j == |run|
  {
    var whole := run + [separator] + rest;
    assert whole[|run|] == separator && whole[..|run|] == run;
    assert forall k :: 0 <= k < |run| ==> whole[k] == run[k] && Alphanumeric(whole[k]);
  }

  lemma FirstRunOrLater(run: string, separator: char, rest: string, word: string)
    requires AllAlphanumeric(run) && !Alphanumeric(separator)
    requires IsRun(run + [separator] + rest, word)
    ensures (run != [] && word == run) || IsRun(rest, word)
  {
    var front := run + [separator];
    var i: nat, j: nat :| MaximalRun(front + rest, i, j) && (front + rest)[i..j] == word;
    FirstRun(run, separator, rest);
    if i > |run| {
      ShiftRun(front, rest, i - |front|, j - |front|);
    }
  }

  lemma LaterIsRun(run: string, separator: char, rest: string, word: string)
    requires AllAlphanumeric(run) && !Alphanumeric(separator)
    requires (run != [] && word == run) || IsRun(rest, word)
    ensures IsRun(run + [separator] + rest, word)
  {
    FirstRun(run, separator, rest);
    if run == [] || word != run {
      var i: nat, j: nat :| MaximalRun(rest, i, j) && rest[i..j] == word;
      ShiftRun(run + [separator], rest, i, j);
    }
  }

  /** The parts of a text are exactly its maximal alphanumeric runs. */
  lemma {:induction false} PartsAreRuns(text: string, run: string, word: string)
    requires AllAlphanumeric(run)
    ensures word in Parts(text, run) <==> IsRun(run + text, word)
  {
    if text == [] {
      assert run + text == run;
      OneRun(run, word);
    } else if Alphanumeric(text[0]) {
      assert run + [text[0]] + text[1..] == run + text;
      PartsAreRuns(text[1..], run + [text[0]], word);
    } else {
      assert run + [text[0]] + text[1..] == run + text && [] + text[1..] == text[1..];
      PartsAreRuns(text[1..], [], word);
      if IsRun(run + text, word) {
        FirstRunOrLater(run, text[0], text[1..], word);
      }
      if (run != [] && word == run) || IsRun(text[1..], word) {
        LaterIsRun(run, text[0], text[1..], word);
      }
    }
  }

  /**
   The verdict on any key: sensitive exactly when, case folded, one of its maximal alphanumeric runs is
   one of the words, or its alphanumerics taken together are one of the words or end in a suffix.
   */
  lemma VerdictMeaning(key: string, fold: Fold)
    ensures var folded := Casefold(key, fold);
            SensitiveKey(key, fold) <==>
              || (exists word <- SENSITIVE_PARTS :: IsRun(folded, word))
              || Compact(folded) in SENSITIVE_PARTS
              || (exists suffix <- SENSITIVE_SUFFIXES :: EndsWith(Compact(folded), suffix))
  {
    var folded := Casefold(key, fold);
    assert [] + folded == folded;
    forall word ensures word in Parts(folded, []) <==> IsRun(folded, word) {
      PartsAreRuns(folded, [], word);
    }
    var found := Parts(folded, []) * SENSITIVE_PARTS;
    if found != {} {
      var word :| word in found;
      assert IsRun(folded, word);
    }
    if word :| word in SENSITIVE_PARTS && IsRun(folded, word) {
      assert word in found;
    }
  }

  // ---- separators cannot hide a suffix

  lemma {:induction false} CompactConcat(a: string, b: string)
    ensures Compact(a + b) == Compact(a) + Compact(b)
  {
    if a == [] {
      assert a + b == b;
    } else {
      var head := if Alphanumeric(a[0]) then [a[0]] else [];
      assert (a + b)[0] == a[0] && (a + b)[1..] == a[1..] + b;
      CompactConcat(a[1..], b);
      assert head + Compact(a[1..]) + Compact(b) == head + (Compact(a[1..]) + Compact(b));
    }
  }

  lemma {:induction false} CasefoldConcat(a: string, b: string, fold: Fold)
    ensures Casefold(a + b, fold) == Casefold(a, fold) + Casefold(b, fold)
  {
    if a == [] {
      assert a + b == b;
    } else {
      assert (a + b)[0] == a[0] && (a + b)[1..] == a[1..] + b;
      CasefoldConcat(a[1..], b, fold);
      assert fold(a[0]) + Casefold(a[1..], fold) + Casefold(b, fold)
          == fold(a[0]) + (Casefold(a[1..], fold) + Casefold(b, fold));
    }
  }

  /** Any key whose end spells one of the suffixes, with whatever case or separators, is sensitive. */
  lemma SuffixIsSensitive(prefix: string, tail: string, suffix: string, fold: Fold)
    requires suffix in SENSITIVE_SUFFIXES && Compact(Casefold(tail, fold)) == suffix
    ensures SensitiveKey(prefix + tail, fold)
  {
    CasefoldConcat(prefix, tail, fold);
    CompactConcat(Casefold(prefix, fold), Casefold(tail, fold));
    assert EndsWith(Compact(Casefold(prefix + tail, fold)), suffix);
  }

  // ---- a second pass is not always the identity

  function Wrapped(levels: nat, key: string, v: Json): Json {
    if levels == 0 then v else Dict([Member(Name(key), Wrapped(levels - 1, key, v))])
  }

  lemma OneMember(key: string, v: Json)
    ensures Children(Dict([Member(Name(key), v)])) == [Child(Some(key), v)]
  {
    var members, pairs := [Member(Name(key), v)], [Pair(key, v)];
    assert members[1..] == [] && pairs[1..] == [];
    assert Select(members, MAX_OPEN_ITEMS) == pairs;
    assert Sort(pairs[1..]) == [] && Sort(pairs) == pairs;
    assert FirstOfEachClip(pairs[1..], {ClipKey(key)}) == [];
    assert FirstOfEachClip(pairs, {}) == pairs;
    assert PairChildren(pairs) == [Child(Some(key), v)];
  }

  /** A settled single-member dictionary has a settled member. */
  lemma OneMemberSettled(key: string, v: Json, depth: nat, at: Option<string>, nodes: nat, sensitive: Verdict)
    requires depth <= MAX_OPEN_DEPTH && nodes < MAX_OPEN_NODES && !Hides(at, sensitive)
    requires Settled(Dict([Member(Name(key), v)]), depth, at, nodes, sensitive)
    ensures Settled(v, depth + 1, Some(key), nodes + 1, sensitive)
  {
    OneMember(key, v);
    assert [Child(Some(key), v)][0] == Child(Some(key), v);
    assert AllSettled([Child(Some(key), v)], depth + 1, nodes + 1, sensitive);
  }

  lemma UnwrapSettled(levels: nat, key: string, v: Json, depth: nat, at: Option<string>, sensitive: Verdict)
    requires !sensitive(key) && (at == None || at == Some(key)) && levels > 0 && depth <= MAX_OPEN_DEPTH
    requires Settled(Wrapped(levels, key, v), depth, at, depth, sensitive)
    ensures Settled(Wrapped(levels - 1, key, v), depth + 1, Some(key), depth + 1, sensitive)
  {
    OneMemberSettled(key, Wrapped(levels - 1, key, v), depth, at, depth, sensitive);
  }

  lemma OuterLevelsSettled(key: string, v: Json, sensitive: Verdict)
    requires !sensitive(key) && Settled(Wrapped(6, key, v), 0, None, 0, sensitive)
    ensures Settled(Wrapped(4, key, v), 2, Some(key), 2, sensitive)
  {
    UnwrapSettled(6, key, v, 0, None, sensitive);
    UnwrapSettled(5, key, v, 1, Some(key), sensitive);
  }

  lemma MiddleLevelsSettled(key: string, v: Json, sensitive: Verdict)
    requires !sensitive(key) && Settled(Wrapped(4, key, v), 2, Some(key), 2, sensitive)
    ensures Settled(Wrapped(2, key, v), 4, Some(key), 4, sensitive)
  {
    UnwrapSettled(4, key, v, 2, Some(key), sensitive);
    UnwrapSettled(3, key, v, 3, Some(key), sensitive);
  }

  lemma InnerLevelsSettled(key: string, v: Json, sensitive: Verdict)
    requires !sensitive(key) && Settled(Wrapped(2, key, v), 4, Some(key), 4, sensitive)
    ensures Settled(v, 6, Some(key), 6, sensitive)
  {
    UnwrapSettled(2, key, v, 4, Some(key), sensitive);
    UnwrapSettled(1, key, v, 5, Some(key), sensitive);
  }

  /** Six levels in, a settled value is settled where it stands. */
  lemma SixLevelsSettled(key: string, v: Json, sensitive: Verdict)
    requires !sensitive(key) && Settled(Wrapped(6, key, v), 0, None, 0, sensitive)
    ensures Settled(v, 6, Some(key), 6, sensitive)
  {
    OuterLevelsSettled(key, v, sensitive);
    MiddleLevelsSettled(key, v, sensitive);
    InnerLevelsSettled(key, v, sensitive);
  }

  /** The marker left for a secret at the deepest level does not stand for a value still hidden there. */
  lemma ForgottenNotSettled(long: string, text: Json, sensitive: Verdict)
    requires sensitive(long) && !sensitive(ClipKey(long)) && !sensitive("a")
    ensures !Settled(Dict([Member(Name(long), text)]), 6, Some("a"), 6, sensitive)
  {
    if Settled(Dict([Member(Name(long), text)]), 6, Some("a"), 6, sensitive) {
      OneMemberSettled(long, text, 6, Some("a"), 6, sensitive);
    }
  }

  /**
   A sensitive key whose first 128 characters are not: at the last level the first pass leaves the
   redaction marker and the second, no longer seeing why, leaves the truncation marker.
   */
  lemma SecondPassForgetsASecret(long: string, text: Json, sensitive: Verdict)
    requires sensitive(long) && !sensitive(ClipKey(long)) && !sensitive("a")
    ensures var v := Wrapped(6, "a", Dict([Member(Name(long), text)]));
            Redact(Redact(v, sensitive), sensitive) != Redact(v, sensitive)
  {
    var v := Wrapped(6, "a", Dict([Member(Name(long), text)]));
    IdempotentExactlyWhenSettled(v, sensitive);
    if Settled(v, 0, None, 0, sensitive) {
      ForgottenNotSettled(long, text, sensitive);
      SixLevelsSettled("a", Dict([Member(Name(long), text)]), sensitive);
    }
  }

  /** A plain key whose first 128 characters are sensitive: the second pass hides what the first showed. */
  lemma SecondPassSuspectsAPlainKey(long: string, text: Json, sensitive: Verdict)
    requires !sensitive(long) && sensitive(ClipKey(long)) && text != Str(REDACTED)
    ensures var v := Dict([Member(Name(long), text)]);
            Redact(Redact(v, sensitive), sensitive) != Redact(v, sensitive)
  {
    var v := Dict([Member(Name(long), text)]);
    IdempotentExactlyWhenSettled(v, sensitive);
    if Settled(v, 0, None, 0, sensitive) {
      OneMemberSettled(long, text, 0, None, 0, sensitive);
    }
  }

  function Letters(n: nat): (s: string)
    ensures |s| == n && forall i :: 0 <= i < n ==> s[i] == 'a'
  {
    seq(n, i => 'a')
  }

  lemma SuffixesEndOtherwise()
    ensures forall suffix <- SENSITIVE_SUFFIXES :: suffix != [] && suffix[|suffix| - 1] !in "as"
  {
  }

  lemma PartsAreShort()
    ensures forall part <- SENSITIVE_PARTS :: 1 < |part| < 100
  {
  }

  /** Far too long for a word, and ending in a letter no suffix ends in. */
  lemma LongPlainKey(key: string, fold: Fold)
    requires LowerCase(key) && FoldsLettersToThemselves(fold) && (|key| >= 100 || |key| == 1) && key[|key| - 1] in "as"
    ensures !SensitiveKey(key, fold)
  {
    LowerCaseVerdict(key, fold);
    PartsAreShort();
    SuffixesEndOtherwise();
  }

  lemma TokenKey(key: string, fold: Fold)
    requires LowerCase(key) && FoldsLettersToThemselves(fold) && EndsWith(key, "token")
    ensures SensitiveKey(key, fold)
  {
    LowerCaseVerdict(key, fold);
    assert "token" in SENSITIVE_SUFFIXES;
  }

  /** Both keys exist for the verdict the code applies. */
  lemma BothLongKeysExist(fold: Fold)
    requires FoldsLettersToThemselves(fold)
    ensures var forgotten, suspected := Letters(128) + "token", Letters(123) + "tokens";
            && SensitiveKey(forgotten, fold) && !SensitiveKey(ClipKey(forgotten), fold)
            && !SensitiveKey(suspected, fold) && SensitiveKey(ClipKey(suspected), fold)
            && !SensitiveKey("a", fold)
  {
    var forgotten, suspected := Letters(128) + "token", Letters(123) + "tokens";
    assert ClipKey(forgotten) == Letters(128);
    assert ClipKey(suspected) == Letters(123) + "token";
    TokenKey(forgotten, fold);
    LongPlainKey(ClipKey(forgotten), fold);
    LongPlainKey(suspected, fold);
    TokenKey(ClipKey(suspected), fold);
    LongPlainKey("a", fold);
  }

  /** Redacting twice is not always redacting once, whatever case folding does beyond plain letters. */
  lemma SecondPassCanDiffer(fold: Fold)
    requires FoldsLettersToThemselves(fold)
    ensures exists v :: Redact(Redact(v, Judge(fold)), Judge(fold)) != Redact(v, Judge(fold))
  {
    BothLongKeysExist(fold);
    SecondPassSuspectsAPlainKey(Letters(123) + "tokens", Null, Judge(fold));
  }
}
