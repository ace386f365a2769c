/** The table of characters that may not appear in a serialized folder name, and
    the escaping that replaces each of them by '%' and its code in hex
    (PathUtils' static constructor, `ReplaceIllegalCharsByConfig` and
    `HandleIllegalSymbols`). */
module IllegalSymbols {
  import opened Hex
  import opened Text
  import opened PlatformPath

  /** One `KeyValuePair<char, string>` of the table: a character and its escaped form. */
  datatype Substitution = Substitution(key: char, value: string)

  /** The two characters always escaped, ahead of all others. */
  const FixedIllegalCharacters: seq<char> := ['%', '$']

  /** `EncodingAlgorithm`: '%' followed by the character's code in "X2" format. */
  function EncodingAlgorithm(c: char): (r: string)
    ensures |r| >= 3 && r[0] == '%'
    ensures IsUpperHex(r[1..]) && Value(r[1..]) == c as int
    ensures c as int < 256 ==> |r| == 3
    ensures |r| > 3 ==> r[1] != '0'
  {
    FormatRoundTrip(c as int, 2);
    X2Length(c as int);
    assert ("%" + X2(c as int))[1..] == X2(c as int);
    "%" + X2(c as int)
  }

  predicate Unique(s: seq<char>) {
    forall i, j :: 0 <= i < j < |s| ==> s[i] != s[j]
  }

  /** The position of the first occurrence of `x` in `s`. */
  function FirstIndex(s: seq<char>, x: char): (i: nat)
    requires x in s
    ensures i < |s| && s[i] == x && x !in s[..i]
  {
    if s[0] == x then 0
    else
      var i := FirstIndex(s[1..], x);
      assert s[..i + 1] == [s[0]] + s[1..][..i];
      i + 1
  }

  /** `r` lists characters of `s` in the order of their first occurrence in `s`. */
  predicate InFirstOccurrenceOrder(r: seq<char>, s: seq<char>) {
    forall i, j :: 0 <= i < j < |r| ==> OccursBefore(s, r[i], r[j])
  }

  /** Both characters occur in `s`, and `x` first occurs before `y` does. */
  predicate OccursBefore(s: seq<char>, x: char, y: char) {
    x in s && y in s && FirstIndex(s, x) < FirstIndex(s, y)
  }

  /** Listing in first-occurrence order composes. */
  lemma OrderCompose(r: seq<char>, d: seq<char>, s: seq<char>)
    requires InFirstOccurrenceOrder(r, d) && InFirstOccurrenceOrder(d, s)
    ensures InFirstOccurrenceOrder(r, s)
  {
    forall i, j | 0 <= i < j < |r|
      ensures OccursBefore(s, r[i], r[j])
    {
      assert OccursBefore(d, r[i], r[j]);
      var a, b := FirstIndex(d, r[i]), FirstIndex(d, r[j]);
      assert OccursBefore(s, d[a], d[b]);
    }
  }

  /** The characters of `s` not in `seen`, each once, in order of first occurrence:
      LINQ's `Distinct` when `seen` is empty, and its `Except` otherwise. */
  function DistinctExcept(s: seq<char>, seen: set<char>): (r: seq<char>)
    ensures forall x :: x in r <==> x in s && x !in seen
    ensures Unique(r)
    ensures |s| > 0 && s[0] !in seen ==> |r| > 0 && r[0] == s[0]
  {
    if s == [] then []
    else if s[0] in seen then DistinctExcept(s[1..], seen)
    else
      [s[0]] + DistinctExcept(s[1..], seen + {s[0]})
  }

  /** `DistinctExcept` keeps the order of first occurrence. */
  lemma {:induction false} DistinctExceptOrder(s: seq<char>, seen: set<char>)
    ensures InFirstOccurrenceOrder(DistinctExcept(s, seen), s)
  {
    if s != [] {
      var seen' := if s[0] in seen then seen else seen + {s[0]};
      var rest := DistinctExcept(s[1..], seen');
      DistinctExceptOrder(s[1..], seen');
      forall x | x in rest
        ensures x in s && x != s[0] && FirstIndex(s, x) == FirstIndex(s[1..], x) + 1
      {
      }
    }
  }

  /** When neither of two different leading characters is excluded, both lead the result. */
  lemma FirstTwoSurvive(s: seq<char>, seen: set<char>)
    requires |s| >= 2 && s[0] !in seen && s[1] !in seen && s[0] != s[1]
    ensures var r := DistinctExcept(s, seen); |r| >= 2 && r[0] == s[0] && r[1] == s[1]
  {
    assert s[1..][0] == s[1];
  }

  function Distinct(s: seq<char>): seq<char> {
    DistinctExcept(s, {})
  }

  function Except(s: seq<char>, excluded: seq<char>): seq<char> {
    DistinctExcept(s, set c | c in excluded)
  }

  function Keys(t: seq<Substitution>): (ks: seq<char>)
    ensures |ks| == |t| && forall i :: 0 <= i < |t| ==> ks[i] == t[i].key
  {
    seq(|t|, i requires 0 <= i < |t| => t[i].key)
  }

  /** The characters that become table keys: the fixed ones, the platform's invalid
      file-name characters and the configured extra ones, in that order. */
  function Candidates(configured: seq<char>): seq<char> {
    FixedIllegalCharacters + InvalidFileNameChars + configured
  }

  /** `IllegalSymbolsToReplace`, as the static constructor builds it from the
      configured extra invalid characters. */
  function IllegalSymbolsToReplace(configured: seq<char>): (t: seq<Substitution>)
    ensures forall c :: c in Keys(t) <==>
      c in Candidates(configured) && c != AltDirectorySeparatorChar && c != DirectorySeparatorChar
    ensures Unique(Keys(t))
    ensures |t| >= 2 && t[0].key == '%' && t[1].key == '$'
    ensures forall i :: 0 <= i < |t| ==> t[i].value == EncodingAlgorithm(t[i].key)
  {
    TableKeys(configured);
    Entries(Except(Distinct(Candidates(configured)), [AltDirectorySeparatorChar, DirectorySeparatorChar]))
  }

  /** The keys: the candidates other than the two separators, each once, '%' and '$' first. */
  lemma TableKeys(configured: seq<char>)
    ensures var keys := Except(Distinct(Candidates(configured)), [AltDirectorySeparatorChar, DirectorySeparatorChar]);
      && (forall c :: c in keys <==> c in Candidates(configured) && c != '/' && c != '\\')
      && Unique(keys)
      && |keys| >= 2 && keys[0] == '%' && keys[1] == '$'
  {
    var all := Candidates(configured);
    assert all[0] == '%' && all[1] == '$';
    var distinct := Distinct(all);
    FirstTwoSurvive(all, {});
    assert distinct[0] == '%' && distinct[1] == '$';
    var excluded := set c | c in [AltDirectorySeparatorChar, DirectorySeparatorChar];
    assert excluded == {'/', '\\'};
    FirstTwoSurvive(distinct, excluded);
  }

  /** The table's keys come in the order of their first occurrence among the candidates:
      '%' and '$', then the platform's characters, then the configured ones. */
  lemma TableOrder(configured: seq<char>)
    ensures InFirstOccurrenceOrder(Keys(IllegalSymbolsToReplace(configured)), Candidates(configured))
  {
    var all := Candidates(configured);
    var distinct := Distinct(all);
    var excluded := set c | c in [AltDirectorySeparatorChar, DirectorySeparatorChar];
    var keys := DistinctExcept(distinct, excluded);
    DistinctExceptOrder(all, {});
    DistinctExceptOrder(distinct, excluded);
    OrderCompose(keys, distinct, all);
    assert Keys(IllegalSymbolsToReplace(configured)) == keys;
  }

  /** Each key paired with its escaped form (the `select` of the comprehension). */
  function Entries(keys: seq<char>): (t: seq<Substitution>)
    ensures |t| == |keys| && Keys(t) == keys
    ensures forall i :: 0 <= i < |t| ==> t[i] == Substitution(keys[i], EncodingAlgorithm(keys[i]))
  {
    var t := seq(|keys|, i requires 0 <= i < |keys| => Substitution(keys[i], EncodingAlgorithm(keys[i])));
    assert Keys(t) == keys;
    t
  }

  /** Index of the first entry whose key is `c`, or -1. */
  function KeyIndex(t: seq<Substitution>, c: char): (i: int)
    ensures -1 <= i < |t|
    ensures i == -1 <==> c !in Keys(t)
    ensures 0 <= i ==> t[i].key == c && forall k :: 0 <= k < i ==> t[k].key != c
  {
    if t == [] then -1
    else if t[0].key == c then 0
    else
      var i := KeyIndex(t[1..], c);
      assert Keys(t) == [t[0].key] + Keys(t[1..]);
      if i < 0 then -1 else i + 1
  }

  /** What a single character becomes under a one-pass escape with table `t`. */
  function Lookup(t: seq<Substitution>, c: char): string {
    var i := KeyIndex(t, c);
    if i < 0 then [c] else t[i].value
  }

  /** Reference definition: every character of `s` replaced at once by its table entry. */
  function EscapeEach(t: seq<Substitution>, s: string): string {
    if s == [] then [] else Lookup(t, s[0]) + EscapeEach(t, s[1..])
  }

  /** The source's definition: `Aggregate` over the table, applying
      `StringBuilder.Replace(key, value)` for each entry in table order. */
  function ReplaceInOrder(t: seq<Substitution>, s: string): string {
    if t == [] then s
    else Replace(ReplaceInOrder(t[..|t| - 1], s), t[|t| - 1].key, t[|t| - 1].value)
  }

  /** `HandleIllegalSymbols`: one `StringBuilder`, edited once per table entry. */
  method HandleIllegalSymbols(str: string, table: seq<Substitution>) returns (r: string)
    ensures r == ReplaceInOrder(table, str)
    ensures NoLaterKeyInEarlierValue(table) ==> r == EscapeEach(table, str)
  {
    var builder := str;
    for i := 0 to |table|
      invariant builder == ReplaceInOrder(table[..i], str)
    {
      assert table[..i + 1][..i] == table[..i];
      builder := Replace(builder, table[i].key, table[i].value);
    }
    assert table[..|table|] == table;
    if NoLaterKeyInEarlierValue(table) {
      ReplaceInOrderIsOnePass(table, str);
    }
    r := builder;
  }

  /** `ReplaceIllegalCharsByConfig`: escaping with the static table, which the static
      constructor built once as `IllegalSymbolsToReplace(configured)`. */
  method ReplaceIllegalCharsByConfig(path: string, table: seq<Substitution>) returns (r: string)
    ensures r == ReplaceInOrder(table, path)
  {
    r := HandleIllegalSymbols(path, table);
  }

  /** No escaped form of an entry contains the key of a later entry, so a later
      replacement never rewrites what an earlier one produced. */
  predicate NoLaterKeyInEarlierValue(t: seq<Substitution>) {
    forall i, j :: 0 <= i < j < |t| ==> t[j].key !in t[i].value
  }

  /** No configured character is an upper-case hex digit, the only characters
      besides '%' that escaped forms contain. */
  predicate HexFree(configured: seq<char>) {
    forall c :: c in configured ==> !IsUpperHexDigit(c)
  }

  lemma {:induction false} EscapeEachConcat(t: seq<Substitution>, a: string, b: string)
    ensures EscapeEach(t, a + b) == EscapeEach(t, a) + EscapeEach(t, b)
  {
    if a == [] {
      assert a + b == b;
    } else {
      assert (a + b)[1..] == a[1..] + b;
      EscapeEachConcat(t, a[1..], b);
    }
  }

  lemma {:induction false} EscapeEachEmptyTable(s: string)
    ensures EscapeEach([], s) == s
  {
    if s != [] {
      EscapeEachEmptyTable(s[1..]);
    }
  }

  /** Appending an entry to the table changes what one character becomes exactly
      as one more `Replace` of the new key does. */
  lemma LookupAppend(t: seq<Substitution>, c: char)
    requires |t| > 0 && NoLaterKeyInEarlierValue(t)
    ensures Replace(Lookup(t[..|t| - 1], c), t[|t| - 1].key, t[|t| - 1].value) == Lookup(t, c)
  {
    var init, last := t[..|t| - 1], t[|t| - 1];
    var i := KeyIndex(init, c);
    var j := KeyIndex(t, c);
    if i >= 0 {
      assert init[i] == t[i] && t[i].key == c;
      assert Keys(t)[i] == c;
      assert forall k :: 0 <= k < i ==> t[k].key != c by {
        forall k | 0 <= k < i ensures t[k].key != c {
          assert init[k] == t[k];
        }
      }
      assert j == i;
      assert last.key !in t[i].value;
    } else {
      assert forall k :: 0 <= k < |init| ==> t[k].key != c by {
        forall k | 0 <= k < |init| ensures t[k].key != c {
          assert Keys(init)[k] == init[k].key;
        }
      }
      if c == last.key {
        assert j == |t| - 1;
      } else {
        assert c !in Keys(t) by {
          forall k | 0 <= k < |t| ensures Keys(t)[k] != c { }
        }
      }
    }
  }

  /** Appending an entry to the table changes a one-pass escape exactly as one more
      `Replace` of the new key does. */
  lemma {:induction false} AppendEntryIsOneMoreReplace(t: seq<Substitution>, s: string)
    requires |t| > 0 && NoLaterKeyInEarlierValue(t)
    ensures Replace(EscapeEach(t[..|t| - 1], s), t[|t| - 1].key, t[|t| - 1].value) == EscapeEach(t, s)
  {
    var init, last := t[..|t| - 1], t[|t| - 1];
    if s != [] {
      ReplaceConcat(Lookup(init, s[0]), EscapeEach(init, s[1..]), last.key, last.value);
      AppendEntryIsOneMoreReplace(t, s[1..]);
      LookupAppend(t, s[0]);
    }
  }

  /** The ordered `Replace` aggregate equals the one-pass escape whenever no later key
      occurs in an earlier escaped form: nothing is escaped twice. */
  lemma {:induction false} ReplaceInOrderIsOnePass(t: seq<Substitution>, s: string)
    requires NoLaterKeyInEarlierValue(t)
    ensures ReplaceInOrder(t, s) == EscapeEach(t, s)
    decreases |t|
  {
    if t == [] {
      EscapeEachEmptyTable(s);
    } else {
      ReplaceInOrderIsOnePass(t[..|t| - 1], s);
      AppendEntryIsOneMoreReplace(t, s);
    }
  }

  /** The platform's invalid file-name characters hold no upper-case hex digit. */
  lemma PlatformCharsAreNotHexDigits()
    ensures forall c :: c in InvalidFileNameChars ==> !IsUpperHexDigit(c)
  {
  }

  /** Every key of the table but the first is neither '%' nor, when the configured
      characters hold none, an upper-case hex digit. */
  lemma LaterKeysAreNotEscapeChars(configured: seq<char>, j: int)
    requires HexFree(configured)
    requires 0 < j < |IllegalSymbolsToReplace(configured)|
    ensures var c := IllegalSymbolsToReplace(configured)[j].key; c != '%' && !IsUpperHexDigit(c)
  {
    var t := IllegalSymbolsToReplace(configured);
    var c := t[j].key;
    assert Keys(t)[j] == c && Keys(t)[0] == '%';
    assert c in Keys(t);
    assert c in FixedIllegalCharacters + InvalidFileNameChars + configured;
    PlatformCharsAreNotHexDigits();
    assert c in FixedIllegalCharacters || c in InvalidFileNameChars || c in configured;
  }

  /** With no hex digit among the configured characters, the table built by the
      static constructor meets the condition of `ReplaceInOrderIsOnePass`, and every
      character of an escaped form is '%' or a character that is not a key. */
  lemma TableIsOnePassSafe(configured: seq<char>)
    requires HexFree(configured)
    ensures NoLaterKeyInEarlierValue(IllegalSymbolsToReplace(configured))
    ensures ValuesUseNoKeyButPercent(IllegalSymbolsToReplace(configured))
  {
    var t := IllegalSymbolsToReplace(configured);
    forall i, j | 0 <= i < j < |t| ensures t[j].key !in t[i].value {
      LaterKeysAreNotEscapeChars(configured, j);
      NotInEscaped(t[i].key, t[j].key);
    }
    forall i, x | 0 <= i < |t| && x in t[i].value ensures x == '%' || x !in Keys(t) {
      if x != '%' && x in Keys(t) {
        var j :| 0 <= j < |t| && Keys(t)[j] == x;
        assert j > 0;
        LaterKeysAreNotEscapeChars(configured, j);
        NotInEscaped(t[i].key, x);
      }
    }
  }

  /** An escaped form holds '%' and upper-case hex digits only. */
  lemma NotInEscaped(c: char, x: char)
    requires x != '%' && !IsUpperHexDigit(x)
    ensures x !in EncodingAlgorithm(c)
  {
    var e := EncodingAlgorithm(c);
    forall k | 0 <= k < |e| ensures e[k] != x {
      if k > 0 {
        assert e[k] == e[1..][k - 1];
      }
    }
  }

  predicate ValuesUseNoKeyButPercent(t: seq<Substitution>) {
    forall i, x :: 0 <= i < |t| && x in t[i].value ==> x == '%' || x !in Keys(t)
  }

  /** After escaping, the only table character left in the text is the '%' that
      introduces each escape. */
  lemma {:induction false} NoRawKeyRemains(t: seq<Substitution>, s: string)
    requires ValuesUseNoKeyButPercent(t)
    ensures forall x :: x in EscapeEach(t, s) ==> x == '%' || x !in Keys(t)
  {
    if s != [] {
      NoRawKeyRemains(t, s[1..]);
      var i := KeyIndex(t, s[0]);
      forall x | x in Lookup(t, s[0]) ensures x == '%' || x !in Keys(t) {
        if i < 0 {
          assert x == s[0];
        }
      }
    }
  }

  /** The escaping of the configured table, character by character: a key becomes
      its escaped form, every other character (the separators '/' and '\\' among
      them) stays as it is. */
  lemma LookupInTable(configured: seq<char>, c: char)
    ensures var t := IllegalSymbolsToReplace(configured);
      Lookup(t, c) == if c in Keys(t) then EncodingAlgorithm(c) else [c]
    ensures Lookup(IllegalSymbolsToReplace(configured), '/') == "/"
    ensures Lookup(IllegalSymbolsToReplace(configured), '\\') == "\\"
  {
  }

  /** Escaping with the configured table, the whole picture: it is the one-pass
      escape, it leaves no raw table character but the escape-introducing '%', and
      it maps a path around a '/' to the escaped pieces around the same '/'. */
  lemma EscapingIsOnePass(configured: seq<char>, s: string, a: string, b: string)
    requires HexFree(configured)
    ensures var t := IllegalSymbolsToReplace(configured);
      && ReplaceInOrder(t, s) == EscapeEach(t, s)
      && (forall x :: x in ReplaceInOrder(t, s) ==> x == '%' || x !in Keys(t))
      && ReplaceInOrder(t, a + "/" + b) == ReplaceInOrder(t, a) + "/" + ReplaceInOrder(t, b)
  {
    var t := IllegalSymbolsToReplace(configured);
    TableIsOnePassSafe(configured);
    ReplaceInOrderIsOnePass(t, s);
    NoRawKeyRemains(t, s);
    ReplaceInOrderIsOnePass(t, a);
    ReplaceInOrderIsOnePass(t, b);
    ReplaceInOrderIsOnePass(t, a + "/" + b);
    EscapeEachConcat(t, a + "/", b);
    EscapeEachConcat(t, a, "/");
    LookupInTable(configured, '/');
    assert EscapeEach(t, "/") == "/";
  }

  /** Reads "%XX" (two upper-case hex digits) back as the character with that code;
      every other character is kept. */
  function Unescape(s: string): string {
    if s == [] then []
    else if |s| >= 3 && s[0] == '%' && IsUpperHexDigit(s[1]) && IsUpperHexDigit(s[2]) then
      [(DigitValue(s[1]) * 16 + DigitValue(s[2])) as char] + Unescape(s[3..])
    else [s[0]] + Unescape(s[1..])
  }

  /** Escaping is reversible when '%' itself is a key and every key has a code below
      256, as holds for the table unless a configured character lies above Latin-1. */
  lemma {:induction false} UnescapeEscape(t: seq<Substitution>, s: string)
    requires '%' in Keys(t)
    requires forall i :: 0 <= i < |t| ==> t[i].value == EncodingAlgorithm(t[i].key) && t[i].key as int < 256
    ensures Unescape(EscapeEach(t, s)) == s
  {
    if s != [] {
      var c := s[0];
      UnescapeEscape(t, s[1..]);
      if KeyIndex(t, c) >= 0 {
        UnescapeEncoded(c, EscapeEach(t, s[1..]));
      } else {
        assert c != '%';
        assert ([c] + EscapeEach(t, s[1..]))[1..] == EscapeEach(t, s[1..]);
      }
    }
  }

  /** An escaped character below 256 is read back as itself. */
  lemma UnescapeEncoded(c: char, rest: string)
    requires c as int < 256
    ensures Unescape(EncodingAlgorithm(c) + rest) == [c] + Unescape(rest)
  {
    var e := EncodingAlgorithm(c);
    PairValue(e[1..]);
    assert e[1..][0] == e[1] && e[1..][1] == e[2];
    assert (e + rest)[3..] == rest;
  }

  /** The escapes of '%' and ':': "%25" and "%3A". */
  lemma EncodingExamples()
    ensures EncodingAlgorithm('%') == "%25"
    ensures EncodingAlgorithm(':') == "%3A"
  {
    assert Format(37, 2) == Format(2, 1) + [Digit(5)];
    assert Format(58, 2) == Format(3, 1) + [Digit(10)];
  }

  /** '%' and ':' are keys of every configured table, so they take their escaped forms. */
  lemma PercentAndColonAreKeys(configured: seq<char>)
    ensures var t := IllegalSymbolsToReplace(configured);
      Lookup(t, '%') == EncodingAlgorithm('%') && Lookup(t, ':') == EncodingAlgorithm(':')
  {
    assert InvalidFileNameChars[36] == ':';
    assert Candidates(configured)[38] == ':';
    LookupInTable(configured, '%');
    LookupInTable(configured, ':');
  }

  /** In every configured table '%' escapes to "%25" and ':' to "%3A". */
  lemma PercentAndColonEscapes(configured: seq<char>)
    ensures var t := IllegalSymbolsToReplace(configured);
      Lookup(t, '%') == "%25" && Lookup(t, ':') == "%3A"
  {
    PercentAndColonAreKeys(configured);
    EncodingExamples();
  }

  /** A character absent from the text and from every escaped form stays absent. */
  lemma {:induction false} ReplaceInOrderKeepsOut(t: seq<Substitution>, s: string, x: char)
    requires x !in s
    requires forall i :: 0 <= i < |t| ==> x !in t[i].value
    ensures x !in ReplaceInOrder(t, s)
  {
    if t != [] {
      ReplaceInOrderKeepsOut(t[..|t| - 1], s, x);
    }
  }

  /** Escaping brings in no directory separator. */
  lemma EscapingAddsNoSeparator(configured: seq<char>, s: string)
    requires DirectorySeparatorChar !in s
    ensures DirectorySeparatorChar !in ReplaceInOrder(IllegalSymbolsToReplace(configured), s)
  {
    var t := IllegalSymbolsToReplace(configured);
    forall i | 0 <= i < |t| ensures DirectorySeparatorChar !in t[i].value {
      NotInEscaped(t[i].key, DirectorySeparatorChar);
    }
    ReplaceInOrderKeepsOut(t, s, DirectorySeparatorChar);
  }

  /** Text holding no key is left as it is by the ordered replacements. */
  lemma {:induction false} ReplaceInOrderKeepsPlain(t: seq<Substitution>, s: string)
    requires forall i :: 0 <= i < |t| ==> t[i].key !in s
    ensures ReplaceInOrder(t, s) == s
  {
    if t != [] {
      ReplaceInOrderKeepsPlain(t[..|t| - 1], s);
    }
  }

  /** No lower-case ASCII letter is a table candidate unless it is configured. */
  lemma LettersAreNoCandidates(c: char, configured: seq<char>)
    requires 'a' <= c <= 'z' && c !in configured
    ensures c !in Candidates(configured)
  {
    assert c !in ControlChars by {
      forall k | 0 <= k < |ControlChars| ensures ControlChars[k] != c {
        assert ControlChars[k] as int == k;
      }
    }
    assert c !in ['"', '<', '>', '|'] && c !in [':', '*', '?', '\\', '/'];
    assert c !in InvalidFileNameChars;
    assert c !in FixedIllegalCharacters;
  }

  /** Text made of lower-case ASCII letters and '/' is not changed by escaping, as long
      as no lower-case letter is configured. */
  lemma LettersAndSlashesAreKept(configured: seq<char>, s: string)
    requires forall c :: c in configured ==> !('a' <= c <= 'z')
    requires forall k :: 0 <= k < |s| ==> 'a' <= s[k] <= 'z' || s[k] == '/'
    ensures ReplaceInOrder(IllegalSymbolsToReplace(configured), s) == s
  {
    var t := IllegalSymbolsToReplace(configured);
    forall i | 0 <= i < |t| ensures t[i].key !in s {
      var c := t[i].key;
      assert c in Keys(t) by { assert Keys(t)[i] == c; }
      if c in s {
        var k :| 0 <= k < |s| && s[k] == c;
        LettersAreNoCandidates(c, configured);
      }
    }
    ReplaceInOrderKeepsPlain(t, s);
  }

  /** Escaping with the configured table brings in no character that `Path.Combine`
      rejects, so an item path that passed that check before escaping still passes it. */
  lemma EscapedPathIsValid(configured: seq<char>, s: string)
    requires !HasInvalidPathChars(s)
    ensures !HasInvalidPathChars(ReplaceInOrder(IllegalSymbolsToReplace(configured), s))
  {
    var t := IllegalSymbolsToReplace(configured);
    var r := ReplaceInOrder(t, s);
    forall k | 0 <= k < |r| ensures !IsInvalidPathChar(r[k]) {
      var x := r[k];
      if IsInvalidPathChar(x) {
        assert x !in s by {
          forall j | 0 <= j < |s| ensures s[j] != x {
          }
        }
        forall i | 0 <= i < |t| ensures x !in t[i].value {
          NotInEscaped(t[i].key, x);
        }
        ReplaceInOrderKeepsOut(t, s, x);
        assert false;
      }
    }
  }

  /** A one-pass escape begins with the first character itself or with the '%' of its escape. */
  lemma EscapeEachStart(t: seq<Substitution>, s: string)
    requires s != []
    requires forall i :: 0 <= i < |t| ==> t[i].value == EncodingAlgorithm(t[i].key)
    ensures EscapeEach(t, s) != [] && EscapeEach(t, s)[0] in {s[0], '%'}
  {
    var i := KeyIndex(t, s[0]);
    assert EscapeEach(t, s)[0] == Lookup(t, s[0])[0];
  }

  /** One `Replace` whose key is no separator and whose value opens with '%' and a
      character other than ':' keeps a path unrooted: the first character stays or
      becomes '%', and the second stays, becomes '%' or becomes the value's second. */
  lemma ReplaceKeepsUnrooted(x: string, c: char, v: string)
    requires !IsPathRooted(x)
    requires c != DirectorySeparatorChar && c != AltDirectorySeparatorChar
    requires |v| >= 2 && v[0] == '%' && v[1] != VolumeSeparatorChar
    ensures !IsPathRooted(Replace(x, c, v))
  {
    if x != [] {
      var head := if x[0] == c then v else [x[0]];
      var rest := Replace(x[1..], c, v);
      var r := head + rest;
      assert Replace(x, c, v) == r;
      assert r[0] == head[0];
      assert r[0] == x[0] || r[0] == '%';
      if |head| == 1 && |x| >= 2 {
        var second := if x[1] == c then v else [x[1]];
        assert rest == second + Replace(x[2..], c, v) by {
          assert x[1..][1..] == x[2..];
        }
        assert r[1] == second[0];
      } else if |head| >= 2 {
        assert r[1] == v[1];
      }
    }
  }

  /** The ordered replacements keep a path unrooted when every entry is of that kind. */
  lemma {:induction false} ReplaceInOrderKeepsUnrooted(t: seq<Substitution>, s: string)
    requires !IsPathRooted(s)
    requires forall i :: 0 <= i < |t| ==>
      && t[i].key != DirectorySeparatorChar && t[i].key != AltDirectorySeparatorChar
      && |t[i].value| >= 2 && t[i].value[0] == '%' && t[i].value[1] != VolumeSeparatorChar
    ensures !IsPathRooted(ReplaceInOrder(t, s))
  {
    if t != [] {
      var last := t[|t| - 1];
      ReplaceInOrderKeepsUnrooted(t[..|t| - 1], s);
      ReplaceKeepsUnrooted(ReplaceInOrder(t[..|t| - 1], s), last.key, last.value);
    }
  }

  /** Escaping with the configured table keeps an item path unrooted: no key is a
      separator, and every escape is '%' followed by hex digits. */
  lemma EscapedPathIsUnrooted(configured: seq<char>, s: string)
    requires !IsPathRooted(s)
    ensures !IsPathRooted(ReplaceInOrder(IllegalSymbolsToReplace(configured), s))
  {
    var t := IllegalSymbolsToReplace(configured);
    forall i | 0 <= i < |t|
      ensures && t[i].key != DirectorySeparatorChar && t[i].key != AltDirectorySeparatorChar
              && |t[i].value| >= 2 && t[i].value[0] == '%' && t[i].value[1] != VolumeSeparatorChar
    {
      var keys := Keys(t);
      assert keys[i] == t[i].key && keys[i] in keys;
      var v := EncodingAlgorithm(t[i].key);
      assert IsUpperHexDigit(v[1..][0]);
    }
    ReplaceInOrderKeepsUnrooted(t, s);
  }
}
