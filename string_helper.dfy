/** PixelMEDIA.PixelCore.Helpers.StringHelper. A null string is None. */
module StringHelper {
  import opened Wrappers
  import opened Int32
  import opened Seqs

  // ---- Trimming ----

  /** Char.IsWhiteSpace, which String.Trim() strips: the Unicode White_Space
      characters. */
  predicate IsWhiteSpace(c: char) {
    || ('\U{0009}' <= c <= '\U{000D}') || c == ' ' || c == '\U{0085}' || c == '\U{00A0}'
    || c == '\U{1680}' || ('\U{2000}' <= c <= '\U{200A}') || c == '\U{2028}' || c == '\U{2029}'
    || c == '\U{202F}' || c == '\U{205F}' || c == '\U{3000}'
  }

  function TrimStart(s: string): (r: string)
    ensures |r| <= |s| && r == s[|s| - |r|..]
    ensures r != [] ==> !IsWhiteSpace(r[0])
    ensures forall i :: 0 <= i < |s| - |r| ==> IsWhiteSpace(s[i])
  {
    if s != [] && IsWhiteSpace(s[0]) then
      var r := TrimStart(s[1..]);
      assert forall i :: 1 <= i < |s| - |r| ==> s[i] == s[1..][i - 1];
      r
    else s
  }

  function TrimEnd(s: string): (r: string)
    ensures |r| <= |s| && r == s[..|r|]
    ensures r != [] ==> !IsWhiteSpace(r[|r| - 1])
    ensures forall i :: |r| <= i < |s| ==> IsWhiteSpace(s[i])
  {
    if s != [] && IsWhiteSpace(s[|s| - 1]) then
      var r := TrimEnd(s[..|s| - 1]);
      assert forall i :: |r| <= i < |s| - 1 ==> s[i] == s[..|s| - 1][i];
      r
    else s
  }

  /** r is s with i characters of white space cut from the front and the
      rest of what was cut, all white space, from the back. */
  predicate StripsTo(s: string, r: string, i: int) {
    && 0 <= i <= |s| - |r| && r == s[i..i + |r|]
    && (forall j :: 0 <= j < i ==> IsWhiteSpace(s[j]))
    && (forall j :: i + |r| <= j < |s| ==> IsWhiteSpace(s[j]))
  }

  /** String.Trim(): s without its leading and trailing white space. */
  function Trim(s: string): (r: string)
    ensures exists i :: StripsTo(s, r, i)
    ensures r != [] ==> !IsWhiteSpace(r[0]) && !IsWhiteSpace(r[|r| - 1])
  {
    var t := TrimStart(s);
    var r := TrimEnd(t);
    var i := |s| - |t|;
    assert t == s[i..];
    assert r == s[i..][..|r|];
    assert s[i..][..|r|] == s[i..i + |r|];
    assert StripsTo(s, r, i);
    r
  }

  /** SafeTrim(s): String.Empty for null or empty input, otherwise s.Trim(). */
  function SafeTrim(s: Option<string>): (r: string)
    ensures s.None? || s == Some("") ==> r == ""
    ensures s.Some? ==> r == Trim(s.value)
  {
    if s.None? || s.value == "" then "" else Trim(s.value)
  }

  /** Trimming twice changes nothing more. */
  lemma TrimIdempotent(s: string)
    ensures Trim(Trim(s)) == Trim(s)
  {
    var r := Trim(s);
    if r != [] {
      assert TrimStart(r) == r;
      assert TrimEnd(r) == r;
    }
  }

  // ---- Truncation ----

  /** Left(s, length): "" for null or empty input, s when it is shorter than
      length, otherwise s.Substring(0, length), which throws for a negative
      length. */
  function Left(s: Option<string>, length: Int32): (r: Result<string>)
    ensures s.None? || s == Some("") ==> r == Ok("")
    ensures s.Some? && s.value != "" && length < 0 ==> r == Err(ArgumentOutOfRange)
    ensures s.Some? && length >= 0 ==>
              r.Ok? && |r.value| == Min(|s.value|, length) && r.value == s.value[..|r.value|]
  {
    if s.None? || s.value == "" then Ok("")
    else if |s.value| < length then Ok(s.value)
    else if length < 0 then Err(ArgumentOutOfRange)
    else Ok(s.value[..length])
  }

  function Min(a: int, b: int): int { if a <= b then a else b }

  /** Ellipsize(s, length): like Left, except that a string of at least
      length characters is cut to length characters followed by "...", so a
      string of exactly length characters still gains the ellipsis. */
  function Ellipsize(s: Option<string>, length: Int32): (r: Result<string>)
    ensures s.None? || s == Some("") ==> r == Ok("")
    ensures s.Some? && s.value != "" && length < 0 ==> r == Err(ArgumentOutOfRange)
    ensures s.Some? && s.value != "" && |s.value| < length ==> r == Ok(s.value)
    ensures s.Some? && s.value != "" && 0 <= length <= |s.value| ==>
              r.Ok? && |r.value| == length + 3 && r.value == s.value[..length] + "..."
  {
    if s.None? || s.value == "" then Ok("")
    else if |s.value| < length then Ok(s.value)
    else if length < 0 then Err(ArgumentOutOfRange)
    else Ok(s.value[..length] + "...")
  }

  /** Ellipsize is Left plus "..." exactly when the string is not shorter
      than length. */
  lemma EllipsizeIsLeftPlusDots(s: string, length: Int32)
    requires s != [] && 0 <= length
    ensures Ellipsize(Some(s), length) ==
            if |s| < length then Left(Some(s), length) else Ok(Left(Some(s), length).value + "...")
  {
  }

  // ---- Splitting ----

  /** String.Split(separators, StringSplitOptions.None) for single-character
      separators: the pieces between separators, empty ones included. */
  function SplitChars(s: string, isSep: char -> bool): (r: seq<string>)
    ensures |r| >= 1
    ensures forall k :: 0 <= k < |r| ==> forall c :: c in r[k] ==> !isSep(c)
    decreases |s|
  {
    if s == [] then [""]
    else
      var pieces := SplitChars(s[..|s| - 1], isSep);
      var c := s[|s| - 1];
      if isSep(c) then pieces + [""]
      else
        var last := pieces[|pieces| - 1] + [c];
        assert forall x :: x in last ==> x in pieces[|pieces| - 1] || x == c;
        pieces[..|pieces| - 1] + [last]
  }

  predicate NonEmpty(s: string) { s != [] }

  /** Split(separators, StringSplitOptions.RemoveEmptyEntries). */
  function SplitNonEmpty(s: string, isSep: char -> bool): seq<string> {
    Filter(NonEmpty, SplitChars(s, isSep))
  }

  /** The delimiters GetWordCount splits on. */
  predicate IsWordDelimiter(c: char) {
    c in {' ', '.', ',', '?', '!', '(', ')', '/', '\'', '"', '-'}
  }

  /** GetWordCount(text): 0 for null or empty text, otherwise the number of
      non-empty pieces between delimiters. */
  function GetWordCount(text: Option<string>): (r: nat)
    ensures text.None? ==> r == 0
    ensures text.Some? ==> r == WordStarts(text.value, IsWordDelimiter)
  {
    if text.None? || text.value == "" then 0
    else
      SplitCountsWordStarts(text.value, IsWordDelimiter);
      |SplitNonEmpty(text.value, IsWordDelimiter)|
  }

  /** Position i starts a word: a non-delimiter at the start or after a
      delimiter. */
  predicate WordStart(s: string, i: nat, isSep: char -> bool)
    requires i < |s|
  {
    !isSep(s[i]) && (i == 0 || isSep(s[i - 1]))
  }

  /** The number of word starts in s. */
  function WordStarts(s: string, isSep: char -> bool): nat
    decreases |s|
  {
    if s == [] then 0
    else WordStarts(s[..|s| - 1], isSep) + (if WordStart(s, |s| - 1, isSep) then 1 else 0)
  }

  lemma LastPiece(s: string, isSep: char -> bool)
    ensures var r := SplitChars(s, isSep);
            r[|r| - 1] == [] <==> s == [] || isSep(s[|s| - 1])
  {
  }

  /** Splitting and dropping empty pieces counts exactly the word starts. */
  lemma {:induction false} SplitCountsWordStarts(s: string, isSep: char -> bool)
    ensures |SplitNonEmpty(s, isSep)| == WordStarts(s, isSep)
  {
    if s != [] {
      var t := s[..|s| - 1];
      var c := s[|s| - 1];
      SplitCountsWordStarts(t, isSep);
      var pieces := SplitChars(t, isSep);
      var n := |pieces|;
      var init, last := pieces[..n - 1], pieces[n - 1];
      LastPiece(t, isSep);
      assert pieces == init + [last];
      NonEmptyCountSnoc(init, last);
      if isSep(c) {
        assert SplitChars(s, isSep) == pieces + [""];
        NonEmptyCountSnoc(pieces, "");
      } else {
        assert SplitChars(s, isSep) == init + [last + [c]];
        NonEmptyCountSnoc(init, last + [c]);
        if t != [] {
          assert t[|t| - 1] == s[|s| - 2];
        }
        assert WordStart(s, |s| - 1, isSep) <==> last == [];
      }
    }
  }

  lemma NonEmptyCountSnoc(pieces: seq<string>, piece: string)
    ensures |Filter(NonEmpty, pieces + [piece])| == |Filter(NonEmpty, pieces)| + (if piece != [] then 1 else 0)
  {
    FilterAppend(NonEmpty, pieces, [piece]);
    assert [piece][1..] == [];
  }

  /** The word count, stated without Split. */
  lemma GetWordCountSpec(text: string)
    ensures GetWordCount(Some(text)) == WordStarts(text, IsWordDelimiter)
  {
    SplitCountsWordStarts(text, IsWordDelimiter);
  }

  lemma WordCountExample()
    ensures GetWordCount(Some("a, b")) == 2
  {
    var s := "a, b";
    GetWordCountSpec(s);
    assert s[..3] == "a, " && s[..3][..2] == "a," && s[..3][..2][..1] == "a";
    assert WordStarts("a", IsWordDelimiter) == 1;
    assert WordStarts("a,", IsWordDelimiter) == 1;
    assert WordStarts("a, ", IsWordDelimiter) == 1;
    assert WordStart(s, 3, IsWordDelimiter);
  }

  // ---- Key/value lines ----

  /** pattern occurs in text at position p. */
  predicate IsPrefixAt(pattern: string, text: string, p: nat) {
    p + |pattern| <= |text| && text[p..p + |pattern|] == pattern
  }

  lemma IsPrefixAtTail(pattern: string, text: string, p: nat)
    requires text != []
    ensures IsPrefixAt(pattern, text, p + 1) <==> IsPrefixAt(pattern, text[1..], p)
  {
    if p + 1 + |pattern| <= |text| {
      assert text[p + 1..p + 1 + |pattern|] == text[1..][p..p + |pattern|];
    }
  }

  /** The first index at which sep occurs in line. */
  function IndexOf(line: string, sep: string): (r: Option<nat>)
    requires sep != []
    ensures r.Some? ==> IsPrefixAt(sep, line, r.value)
    ensures r.Some? ==> forall j: nat :: j < r.value ==> !IsPrefixAt(sep, line, j)
    ensures r.None? ==> forall j: nat :: !IsPrefixAt(sep, line, j)
    decreases |line|
  {
    if |line| < |sep| then None
    else if line[..|sep|] == sep then Some(0)
    else
      assert !IsPrefixAt(sep, line, 0);
      var r := IndexOf(line[1..], sep);
      match r
      case None =>
        forall j: nat ensures !IsPrefixAt(sep, line, j) {
          if j > 0 { IsPrefixAtTail(sep, line, j - 1); }
        }
        None
      case Some(i) =>
        IsPrefixAtTail(sep, line, i);
        forall j: nat | j < i + 1 ensures !IsPrefixAt(sep, line, j) {
          if j > 0 { IsPrefixAtTail(sep, line, j - 1); }
        }
        Some(i + 1)
  }

  /** line.Split(new[] { separator }, 2, StringSplitOptions.None), as key and
      value: the text before the first separator and SafeTrim of the text
      after it; with no separator in the line (a null or empty separator is
      never found), the whole line and null. */
  function KeyValue(line: string, separator: Option<string>): (string, Option<string>) {
    var sep := separator.GetOr("");
    if sep == [] then (line, None)
    else match IndexOf(line, sep)
      case None => (line, None)
      case Some(i) => (line[..i], Some(SafeTrim(Some(line[i + |sep|..]))))
  }

  predicate IsLineBreak(c: char) { c == '\n' || c == '\r' }

  /** The dictionary after adding the pairs of lines to acc, or the
      ArgumentException Dictionary.Add throws at the first repeated key. */
  function AddPairs(lines: seq<string>, separator: Option<string>, acc: map<string, Option<string>>)
    : Result<map<string, Option<string>>>
  {
    if lines == [] then Ok(acc)
    else
      var (key, value) := KeyValue(lines[0], separator);
      if key in acc then Err(DuplicateKey)
      else AddPairs(lines[1..], separator, acc[key := value])
  }

  /** What ExtractKeyValuePairs returns. Splitting a null text throws. */
  function KeyValuePairs(text: Option<string>, separator: Option<string>): Result<map<string, Option<string>>> {
    if text.None? then Err(NullReference)
    else AddPairs(SplitNonEmpty(text.value, IsLineBreak), separator, map[])
  }

  /** ExtractKeyValuePairs(text, keyValueSeparator). */
  method ExtractKeyValuePairs(text: Option<string>, keyValueSeparator: Option<string>)
    returns (r: Result<map<string, Option<string>>>)
    ensures r == KeyValuePairs(text, keyValueSeparator)
  {
    if text.None? {
      return Err(NullReference);
    }
    var dict: map<string, Option<string>> := map[];
    var lines := SplitNonEmpty(text.value, IsLineBreak);
    var i := 0;
    while i < |lines|
      invariant 0 <= i <= |lines|
      invariant AddPairs(lines[i..], keyValueSeparator, dict) == AddPairs(lines, keyValueSeparator, map[])
    {
      AddPairsStep(lines, i, keyValueSeparator, dict);
      var pair := KeyValue(lines[i], keyValueSeparator);
      if pair.0 in dict {
        return Err(DuplicateKey);
      }
      dict := dict[pair.0 := pair.1];
      i := i + 1;
    }
    assert lines[i..] == [];
    return Ok(dict);
  }

  /** One line of the loop: its pair is added, unless its key is there. */
  lemma AddPairsStep(lines: seq<string>, i: nat, separator: Option<string>, acc: map<string, Option<string>>)
    requires i < |lines|
    ensures var pair := KeyValue(lines[i], separator);
            AddPairs(lines[i..], separator, acc) ==
            if pair.0 in acc then Err(DuplicateKey) else AddPairs(lines[i + 1..], separator, acc[pair.0 := pair.1])
  {
    assert lines[i..][0] == lines[i];
    assert lines[i..][1..] == lines[i + 1..];
  }

  function Key(line: string, separator: Option<string>): string {
    KeyValue(line, separator).0
  }

  /** No two lines share a key. */
  predicate DistinctKeys(lines: seq<string>, separator: Option<string>) {
    forall i, j :: 0 <= i < j < |lines| ==> Key(lines[i], separator) != Key(lines[j], separator)
  }

  /** No line's key is already in acc. */
  predicate FreshKeys(lines: seq<string>, separator: Option<string>, acc: map<string, Option<string>>) {
    forall i :: 0 <= i < |lines| ==> Key(lines[i], separator) !in acc
  }

  /** AddPairs succeeds exactly when the keys are distinct and new. */
  lemma {:induction false} AddPairsOkIff(lines: seq<string>, separator: Option<string>, acc: map<string, Option<string>>)
    ensures AddPairs(lines, separator, acc).Ok? <==> DistinctKeys(lines, separator) && FreshKeys(lines, separator, acc)
    ensures AddPairs(lines, separator, acc).Err? ==> AddPairs(lines, separator, acc).fault == DuplicateKey
  {
    if lines != [] {
      var (key, value) := KeyValue(lines[0], separator);
      if key in acc {
        assert !FreshKeys(lines, separator, acc);
      } else {
        var rest := lines[1..];
        var acc' := acc[key := value];
        AddPairsOkIff(rest, separator, acc');
        assert forall i :: 0 <= i < |rest| ==> rest[i] == lines[i + 1];
        if DistinctKeys(lines, separator) && FreshKeys(lines, separator, acc) {
          assert DistinctKeys(rest, separator) by {
            forall i, j | 0 <= i < j < |rest| ensures Key(rest[i], separator) != Key(rest[j], separator) {
              assert Key(lines[i + 1], separator) != Key(lines[j + 1], separator);
            }
          }
          assert FreshKeys(rest, separator, acc') by {
            forall i | 0 <= i < |rest| ensures Key(rest[i], separator) !in acc' {
              assert Key(lines[0], separator) != Key(lines[i + 1], separator);
              assert Key(lines[i + 1], separator) !in acc;
            }
          }
        }
        if DistinctKeys(rest, separator) && FreshKeys(rest, separator, acc') {
          assert DistinctKeys(lines, separator) by {
            forall i, j | 0 <= i < j < |lines| ensures Key(lines[i], separator) != Key(lines[j], separator) {
              assert Key(rest[j - 1], separator) !in acc';
              if i > 0 { assert Key(rest[i - 1], separator) != Key(rest[j - 1], separator); }
            }
          }
          assert FreshKeys(lines, separator, acc) by {
            forall i | 0 <= i < |lines| ensures Key(lines[i], separator) !in acc {
              if i > 0 { assert Key(rest[i - 1], separator) !in acc'; }
            }
          }
        }
      }
    }
  }

  /** On success the keys are acc's and the lines' keys, and no others. */
  lemma {:induction false} AddPairsKeys(lines: seq<string>, separator: Option<string>, acc: map<string, Option<string>>)
    requires AddPairs(lines, separator, acc).Ok?
    ensures var m := AddPairs(lines, separator, acc).value;
            forall k :: k in m <==> k in acc || exists i :: 0 <= i < |lines| && Key(lines[i], separator) == k
  {
    if lines != [] {
      var (key, value) := KeyValue(lines[0], separator);
      var rest := lines[1..];
      var acc' := acc[key := value];
      AddPairsKeys(rest, separator, acc');
      var m := AddPairs(lines, separator, acc).value;
      assert m == AddPairs(rest, separator, acc').value;
      forall k ensures k in m <==> k in acc || exists i :: 0 <= i < |lines| && Key(lines[i], separator) == k {
        if k in m && k !in acc && k != key {
          var i :| 0 <= i < |rest| && Key(rest[i], separator) == k;
          assert rest[i] == lines[i + 1];
        }
        if exists i :: 0 <= i < |lines| && Key(lines[i], separator) == k {
          var i :| 0 <= i < |lines| && Key(lines[i], separator) == k;
          if i > 0 { assert Key(rest[i - 1], separator) == k; }
        }
      }
    }
  }

  /** On success acc's entries stay and every line's key maps to that line's
      value. */
  lemma {:induction false} AddPairsValues(lines: seq<string>, separator: Option<string>, acc: map<string, Option<string>>)
    requires AddPairs(lines, separator, acc).Ok?
    ensures var m := AddPairs(lines, separator, acc).value;
            && (forall k :: k in acc ==> k in m && m[k] == acc[k])
            && (forall i :: 0 <= i < |lines| ==> Key(lines[i], separator) in m && m[Key(lines[i], separator)] == KeyValue(lines[i], separator).1)
  {
    if lines != [] {
      var (key, value) := KeyValue(lines[0], separator);
      var rest := lines[1..];
      var acc' := acc[key := value];
      AddPairsValues(rest, separator, acc');
      var m := AddPairs(lines, separator, acc).value;
      assert m == AddPairs(rest, separator, acc').value;
      forall i | 0 <= i < |lines| ensures Key(lines[i], separator) in m && m[Key(lines[i], separator)] == KeyValue(lines[i], separator).1 {
        if i > 0 { assert rest[i - 1] == lines[i]; }
      }
    }
  }

  /** ExtractKeyValuePairs fails exactly when two lines share a key; otherwise
      each non-empty line contributes its key with its value and nothing else
      is in the dictionary. */
  lemma KeyValuePairsSpec(text: string, separator: Option<string>)
    ensures var lines := SplitNonEmpty(text, IsLineBreak);
            var r := KeyValuePairs(Some(text), separator);
            && (r.Ok? <==> DistinctKeys(lines, separator))
            && (r.Err? ==> r.fault == DuplicateKey)
            && (r.Ok? ==> && (forall k :: k in r.value <==> exists i :: 0 <= i < |lines| && Key(lines[i], separator) == k)
                          && forall i :: 0 <= i < |lines| ==> r.value[Key(lines[i], separator)] == KeyValue(lines[i], separator).1)
  {
    var lines := SplitNonEmpty(text, IsLineBreak);
    AddPairsOkIff(lines, separator, map[]);
    if KeyValuePairs(Some(text), separator).Ok? {
      AddPairsKeys(lines, separator, map[]);
      AddPairsValues(lines, separator, map[]);
    }
  }

  // ---- ExtractBetween ----

  /** The pattern start(.+?)end matches at p with a body of k characters:
      start at p, then k >= 1 characters other than '\n', then end. */
  predicate MatchesAt(text: string, start: string, end: string, p: nat, k: nat) {
    && k >= 1
    && IsPrefixAt(start, text, p)
    && p + |start| + k <= |text|
    && '\n' !in text[p + |start|..p + |start| + k]
    && IsPrefixAt(end, text, p + |start| + k)
  }

  /** The lazy quantifier at p: the shortest body of at least k characters,
      none shorter having matched. */
  function ShortestBody(text: string, start: string, end: string, p: nat, k: nat): (r: Option<nat>)
    requires IsPrefixAt(start, text, p) && k >= 1
    requires p + |start| + k - 1 <= |text| && '\n' !in text[p + |start|..p + |start| + k - 1]
    ensures r.Some? ==> r.value >= k && MatchesAt(text, start, end, p, r.value) &&
                        forall k' :: k <= k' < r.value ==> !MatchesAt(text, start, end, p, k')
    ensures r.None? ==> forall k' :: k' >= k ==> !MatchesAt(text, start, end, p, k')
    decreases |text| - k
  {
    var b := p + |start|;
    if b + k > |text| then None
    else if text[b + k - 1] == '\n' then
      NewLineEndsBody(text, start, end, p, k);
      None
    else
      BodyGrows(text, b, k);
      if IsPrefixAt(end, text, b + k) then Some(k)
      else ShortestBody(text, start, end, p, k + 1)
  }

  /** A '\n' at body position k - 1 rules out every body of k or more. */
  lemma NewLineEndsBody(text: string, start: string, end: string, p: nat, k: nat)
    requires k >= 1 && p + |start| + k <= |text| && text[p + |start| + k - 1] == '\n'
    ensures forall k' :: k' >= k ==> !MatchesAt(text, start, end, p, k')
  {
    var b := p + |start|;
    forall k' | k' >= k ensures !MatchesAt(text, start, end, p, k') {
      if b + k' <= |text| {
        assert text[b..b + k'][k - 1] == '\n';
      }
    }
  }

  lemma BodyGrows(text: string, b: nat, k: nat)
    requires k >= 1 && b + k <= |text| && '\n' !in text[b..b + k - 1] && text[b + k - 1] != '\n'
    ensures '\n' !in text[b..b + k]
  {
    assert text[b..b + k] == text[b..b + k - 1] + [text[b + k - 1]];
  }

  /** The regex engine's scan: the leftmost position from p with a match, and
      the shortest body there. */
  function FirstMatch(text: string, start: string, end: string, p: nat): (r: Option<(nat, nat)>)
    ensures r.Some? ==> var (q, k) := r.value;
                        && p <= q && MatchesAt(text, start, end, q, k)
                        && (forall k' :: 1 <= k' < k ==> !MatchesAt(text, start, end, q, k'))
                        && (forall q', k' :: p <= q' < q ==> !MatchesAt(text, start, end, q', k'))
    ensures r.None? ==> forall q', k' :: p <= q' ==> !MatchesAt(text, start, end, q', k')
    decreases |text| + 1 - p
  {
    if p > |text| then None
    else
      var body := if IsPrefixAt(start, text, p) && p + |start| <= |text| then ShortestBody(text, start, end, p, 1) else None;
      if body.Some? then Some((p, body.value))
      else
        var r := FirstMatch(text, start, end, p + 1);
        assert forall k' :: !MatchesAt(text, start, end, p, k');
        r
  }

  /** ExtractBetween(start, end, text): the first group of the first match of
      start(.+?)end (start and end escaped, so matched literally), or ""
      when there is none. A null argument throws ArgumentNullException. */
  function ExtractBetween(start: Option<string>, end: Option<string>, text: Option<string>): (r: Result<string>)
    ensures start.None? || end.None? || text.None? <==> r == Err(ArgumentNull)
  {
    if start.None? || end.None? || text.None? then Err(ArgumentNull)
    else match FirstMatch(text.value, start.value, end.value, 0)
      case None => Ok("")
      case Some((q, k)) => Ok(text.value[q + |start.value|..q + |start.value| + k])
  }

  /** The result is "" exactly when start(.+?)end matches nowhere; otherwise
      it is the body of the leftmost match, shortest at that position. */
  lemma ExtractBetweenSpec(start: string, end: string, text: string)
    ensures var r := ExtractBetween(Some(start), Some(end), Some(text));
            && r.Ok?
            && (r.value == "" <==> forall q: nat, k: nat :: !MatchesAt(text, start, end, q, k))
            && (r.value != "" ==>
                  exists q: nat, k: nat :: && MatchesAt(text, start, end, q, k)
                                 && r.value == text[q + |start|..q + |start| + k]
                                 && (forall q': nat, k': nat :: q' < q ==> !MatchesAt(text, start, end, q', k'))
                                 && (forall k': nat :: k' < k ==> !MatchesAt(text, start, end, q, k')))
  {
    match FirstMatch(text, start, end, 0)
    case None =>
    case Some((q, k)) =>
      var body := text[q + |start|..q + |start| + k];
      assert |body| == k && body != "";
      forall k': nat | k' < k ensures !MatchesAt(text, start, end, q, k') {
      }
      forall q': nat, k': nat | q' < q ensures !MatchesAt(text, start, end, q', k') {
      }
      assert MatchesAt(text, start, end, q, k) && ExtractBetween(Some(start), Some(end), Some(text)) == Ok(body);
  }

  /** On a match the result is the non-empty, '\n'-free text between start
      and end, and start + result + end occurs in the text. */
  lemma ExtractBetweenFound(start: string, end: string, text: string, q: nat, k: nat)
    requires MatchesAt(text, start, end, q, k)
    ensures var r := ExtractBetween(Some(start), Some(end), Some(text));
            && r.Ok? && r.value != [] && '\n' !in r.value
            && exists i: nat :: IsPrefixAt(start + r.value + end, text, i)
  {
    var m := FirstMatch(text, start, end, 0);
    assert m.Some?;
    var (q', k') := m.value;
    assert MatchesAt(text, start, end, q', k');
    var b := q' + |start|;
    var e := b + k' + |end|;
    var body := text[b..b + k'];
    assert text[q'..b] == start;
    assert text[b + k'..e] == end;
    SliceSplit(text, q', b, e);
    SliceSplit(text, b, b + k', e);
    assert text[q'..e] == start + body + end;
    assert IsPrefixAt(start + body + end, text, q');
  }

  lemma SliceSplit(text: string, i: nat, j: nat, k: nat)
    requires i <= j <= k <= |text|
    ensures text[i..k] == text[i..j] + text[j..k]
  {
  }

  lemma ExtractBetweenExample()
    ensures ExtractBetween(Some("<b>"), Some("</b>"), Some("a <b>x</b> <b>y</b>")) == Ok("x")
  {
    var text := "a <b>x</b> <b>y</b>";
    assert text[0..3] == "a <" && text[1..4] == " <b" && text[2..5] == "<b>";
    assert text[5] == 'x' && text[6..10] == "</b>";
    assert text[5..6] == "x";
  }
}
