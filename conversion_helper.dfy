/** PixelMEDIA.PixelCore.Helpers.ConversionHelper. */
module ConversionHelper {
  import opened Wrappers
  import opened Values
  import opened Int32
  import opened Seqs

  /** MakeJsonDict(dict): copies every pair of dict into a new
      Dictionary<string, object>, boxing each value. */
  method MakeJsonDict<T>(dict: map<string, T>, box: T -> Value) returns (r: map<string, Value>)
    ensures r.Keys == dict.Keys
    ensures forall k :: k in dict ==> r[k] == box(dict[k])
  {
    r := map[];
    var todo := dict.Keys;
    while todo != {}
      invariant todo <= dict.Keys
      invariant r.Keys == dict.Keys - todo
      invariant forall k :: k in r ==> r[k] == box(dict[k])
      decreases todo
    {
      var k :| k in todo;
      r := r[k := box(dict[k])];
      todo := todo - {k};
    }
  }

  /** A System.Guid as its 128-bit value; Guid.Empty is all zero bits. */
  type Guid = n: nat | n < 0x1_0000_0000_0000_0000_0000_0000_0000_0000
  const EmptyGuid: Guid := 0

  /** The shape shared by the SafeConvert overloads: the TryParse out value
      when it succeeds, else the default. A TryParse rejects null. */
  function SafeParseOr<T>(s: Option<string>, defaultValue: T, tryParse: string -> Option<T>): (r: T)
    ensures s.Some? && tryParse(s.value).Some? ==> r == tryParse(s.value).value
    ensures s.None? || tryParse(s.value).None? ==> r == defaultValue
  {
    if s.Some? then tryParse(s.value).GetOr(defaultValue) else defaultValue
  }

  /** SafeConvertGuid(s, defaultValue): the parsed Guid when Guid.TryParse
      accepts s, else the default. `tryParse` stands for Guid.TryParse. */
  function SafeConvertGuidOr(s: Option<string>, defaultValue: Guid, tryParse: string -> Option<Guid>): (r: Guid)
    ensures s.Some? && tryParse(s.value).Some? ==> r == tryParse(s.value).value
    ensures s.None? || tryParse(s.value).None? ==> r == defaultValue
  {
    SafeParseOr(s, defaultValue, tryParse)
  }

  /** SafeConvertGuid(s): the default is Guid.Empty. */
  function SafeConvertGuid(s: Option<string>, tryParse: string -> Option<Guid>): (r: Guid)
    ensures s.Some? && tryParse(s.value).Some? ==> r == tryParse(s.value).value
    ensures s.None? || tryParse(s.value).None? ==> r == EmptyGuid
  {
    SafeConvertGuidOr(s, EmptyGuid, tryParse)
  }

  function ConvertAllGuids(strings: seq<Option<string>>, tryParse: string -> Option<Guid>): (r: seq<Guid>)
    ensures |r| == |strings|
    ensures forall i :: 0 <= i < |r| ==> r[i] == SafeConvertGuid(strings[i], tryParse)
  {
    if strings == [] then [] else [SafeConvertGuid(strings[0], tryParse)] + ConvertAllGuids(strings[1..], tryParse)
  }

  predicate IsNonEmptyGuid(g: Guid) { g != EmptyGuid }

  /** SafeConvertGuidArray(strings): every string converted, Guid.Empty
      dropped, order kept. */
  function SafeConvertGuidArray(strings: seq<Option<string>>, tryParse: string -> Option<Guid>): (r: seq<Guid>)
    ensures EmptyGuid !in r
    ensures IsSubsequence(r, ConvertAllGuids(strings, tryParse))
    ensures forall g :: g in r <==> g != EmptyGuid && exists i :: 0 <= i < |strings| && SafeConvertGuid(strings[i], tryParse) == g
    ensures forall g :: g != EmptyGuid ==> multiset(r)[g] == multiset(ConvertAllGuids(strings, tryParse))[g]
  {
    var all := ConvertAllGuids(strings, tryParse);
    FilterIsSubsequence(IsNonEmptyGuid, all);
    forall g ensures g in Filter(IsNonEmptyGuid, all) <==> g in all && g != EmptyGuid {
      FilterKeepsMembers(IsNonEmptyGuid, all, g);
    }
    forall g | g != EmptyGuid ensures multiset(Filter(IsNonEmptyGuid, all))[g] == multiset(all)[g] {
      FilterMultiplicity(IsNonEmptyGuid, all, g);
    }
    Filter(IsNonEmptyGuid, all)
  }

  /** SafeConvertInt(s, defaultValue); `tryParse` stands for Int32.TryParse. */
  function SafeConvertIntOr(s: Option<string>, defaultValue: Int32, tryParse: string -> Option<Int32>): (r: Int32)
    ensures s.Some? && tryParse(s.value).Some? ==> r == tryParse(s.value).value
    ensures s.None? || tryParse(s.value).None? ==> r == defaultValue
  {
    SafeParseOr(s, defaultValue, tryParse)
  }

  /** SafeConvertInt(s): the default is 0. */
  function SafeConvertInt(s: Option<string>, tryParse: string -> Option<Int32>): (r: Int32)
    ensures s.Some? && tryParse(s.value).Some? ==> r == tryParse(s.value).value
    ensures s.None? || tryParse(s.value).None? ==> r == 0
  {
    SafeConvertIntOr(s, 0, tryParse)
  }

  /** SafeConvertInt(object o, defaultValue): parses Convert.ToString(o), so a
      null object parses the empty string. */
  function SafeConvertObjectIntOr(o: Value, defaultValue: Int32, tryParse: string -> Option<Int32>, toString: Value -> string): (r: Int32)
    ensures o == Null ==> r == tryParse("").GetOr(defaultValue)
    ensures o.Str? ==> r == SafeConvertIntOr(Some(o.s), defaultValue, tryParse)
    ensures !o.Null? && !o.Str? ==> r == SafeConvertIntOr(Some(toString(o)), defaultValue, tryParse)
  {
    SafeConvertIntOr(Some(ConvertToString(o, toString)), defaultValue, tryParse)
  }

  /** SafeConvertInt(object o): the default is 0. */
  function SafeConvertObjectInt(o: Value, tryParse: string -> Option<Int32>, toString: Value -> string): (r: Int32)
    ensures o == Null ==> r == tryParse("").GetOr(0)
    ensures o.Str? ==> r == SafeConvertInt(Some(o.s), tryParse)
    ensures !o.Null? && !o.Str? ==> r == SafeConvertInt(Some(toString(o)), tryParse)
  {
    SafeConvertObjectIntOr(o, 0, tryParse, toString)
  }

  /** SafeConvertString(string): String.Empty for null or empty, else str. */
  function SafeConvertString(str: Option<string>): (r: string)
    ensures str.Some? ==> r == str.value
    ensures str.None? ==> r == ""
  {
    if str.None? || str.value == "" then "" else str.value
  }

  /** SafeConvertString(object): Convert.ToString(obj). */
  function SafeConvertObjectString(obj: Value, toString: Value -> string): (r: string)
    ensures obj == Null ==> r == ""
    ensures obj.Str? ==> r == obj.s
    ensures !obj.Null? && !obj.Str? ==> r == toString(obj)
  {
    ConvertToString(obj, toString)
  }

  /** The object overload agrees with the string overload on strings and on
      null. */
  lemma SafeConvertStringOverloadsAgree(s: string, toString: Value -> string)
    ensures SafeConvertObjectString(Null, toString) == SafeConvertString(None)
    ensures SafeConvertObjectString(Str(s), toString) == SafeConvertString(Some(s))
  {
  }

  // ---- GetLabelFromPascalCase: Regex.Replace(str, "[a-z][A-Z]", "$0[0] $0[1]")

  predicate IsLower(c: char) { 'a' <= c <= 'z' }
  predicate IsUpper(c: char) { 'A' <= c <= 'Z' }

  /** A lower-case letter directly followed by an upper-case one at i. Two such
      pairs never overlap, so the regex replaces every one of them. */
  predicate BoundaryAt(s: string, i: int) {
    0 <= i && i + 1 < |s| && IsLower(s[i]) && IsUpper(s[i + 1])
  }

  predicate NoBoundary(s: string) {
    forall i :: 0 <= i < |s| ==> !BoundaryAt(s, i)
  }

  function Boundaries(s: string): nat {
    if |s| < 2 then 0 else (if BoundaryAt(s, 0) then 1 else 0) + Boundaries(s[1..])
  }

  function GetLabelFromPascalCase(str: string): (r: string)
    ensures |r| == |str| + Boundaries(str)
    ensures str != [] ==> r != [] && r[0] == str[0]
  {
    if str == [] then []
    else if BoundaryAt(str, 0) then [str[0], ' '] + GetLabelFromPascalCase(str[1..])
    else [str[0]] + GetLabelFromPascalCase(str[1..])
  }

  /** The number of lower-upper pairs that start before index i. */
  function BoundariesBefore(s: string, i: nat): nat {
    if i == 0 then 0 else BoundariesBefore(s, i - 1) + (if BoundaryAt(s, i - 1) then 1 else 0)
  }

  lemma {:induction false} BoundariesBeforeTail(s: string, i: nat)
    requires 1 <= i <= |s|
    ensures BoundariesBefore(s, i) == (if BoundaryAt(s, 0) then 1 else 0) + BoundariesBefore(s[1..], i - 1)
  {
    if i > 1 {
      BoundariesBeforeTail(s, i - 1);
      assert BoundaryAt(s, i - 1) == BoundaryAt(s[1..], i - 2);
    }
  }

  lemma {:induction false} BoundariesBeforeAll(s: string)
    ensures BoundariesBefore(s, |s|) == Boundaries(s)
  {
    if s != [] {
      BoundariesBeforeTail(s, |s|);
      BoundariesBeforeAll(s[1..]);
    }
  }

  /** In r, the i-th character of str sits at i plus the number of pairs
      before it, followed by a space when a pair starts at i. */
  predicate PlacedAt(str: string, r: string, i: nat)
    requires i < |str|
  {
    var p := i + BoundariesBefore(str, i);
    && p < |r| && r[p] == str[i]
    && (BoundaryAt(str, i) ==> p + 1 < |r| && r[p + 1] == ' ')
  }

  lemma {:induction false} LabelCharAt(str: string, i: nat)
    requires i < |str|
    ensures PlacedAt(str, GetLabelFromPascalCase(str), i)
  {
    var tail := str[1..];
    var b0 := if BoundaryAt(str, 0) then 1 else 0;
    var r := GetLabelFromPascalCase(str);
    assert r[1 + b0..] == GetLabelFromPascalCase(tail);
    if i > 0 {
      LabelCharAt(tail, i - 1);
      BoundariesBeforeTail(str, i);
      assert str[i] == tail[i - 1];
      assert BoundaryAt(str, i) == BoundaryAt(tail, i - 1);
    }
  }

  /** Where every character goes: each input character is placed as PlacedAt
      says, and the length leaves room for nothing but the inserted spaces.
      Since the places increase with i, this determines the output of every
      input, spaces in the input included. */
  lemma LabelPositions(str: string)
    ensures |GetLabelFromPascalCase(str)| == |str| + BoundariesBefore(str, |str|)
    ensures forall i :: 0 <= i < |str| ==> PlacedAt(str, GetLabelFromPascalCase(str), i)
  {
    BoundariesBeforeAll(str);
    forall i | 0 <= i < |str| ensures PlacedAt(str, GetLabelFromPascalCase(str), i) {
      LabelCharAt(str, i);
    }
  }

  /** A space of the input is never part of a pair, so the input can be cut at
      any of its spaces and the pieces converted on their own. */
  lemma {:induction false} LabelSplitsAtSpace(x: string, y: string)
    ensures GetLabelFromPascalCase(x + [' '] + y) ==
            GetLabelFromPascalCase(x) + [' '] + GetLabelFromPascalCase(y)
  {
    var s := x + [' '] + y;
    if x == [] {
      assert s == [' '] + y;
      assert s[1..] == y;
    } else {
      assert s[1..] == x[1..] + [' '] + y;
      assert BoundaryAt(s, 0) == BoundaryAt(x, 0);
      LabelSplitsAtSpace(x[1..], y);
    }
  }

  predicate IsNotSpace(c: char) { c != ' ' }

  /** Only spaces are inserted: removing all spaces from the input and the
      output gives the same text. */
  lemma {:induction false} LabelInsertsOnlySpaces(str: string)
    ensures Filter(IsNotSpace, GetLabelFromPascalCase(str)) == Filter(IsNotSpace, str)
  {
    if str != [] {
      LabelInsertsOnlySpaces(str[1..]);
      var rest := GetLabelFromPascalCase(str[1..]);
      if BoundaryAt(str, 0) {
        FilterAppend(IsNotSpace, [str[0], ' '], rest);
        assert Filter(IsNotSpace, [str[0], ' ']) == [str[0]];
      } else {
        FilterAppend(IsNotSpace, [str[0]], rest);
      }
      FilterAppend(IsNotSpace, [str[0]], str[1..]);
      assert str == [str[0]] + str[1..];
    }
  }

  /** The output has no lower-upper pair left. */
  lemma {:induction false} LabelHasNoBoundary(str: string)
    ensures NoBoundary(GetLabelFromPascalCase(str))
  {
    if str != [] {
      LabelHasNoBoundary(str[1..]);
      var rest := GetLabelFromPascalCase(str[1..]);
      var r := GetLabelFromPascalCase(str);
      if BoundaryAt(str, 0) {
        assert r == [str[0], ' '] + rest;
        forall i | 0 <= i < |r| ensures !BoundaryAt(r, i) {
          if i >= 2 {
            assert BoundaryAt(r, i) == BoundaryAt(rest, i - 2);
          }
        }
      } else {
        assert r == [str[0]] + rest;
        forall i | 0 <= i < |r| ensures !BoundaryAt(r, i) {
          if i >= 1 {
            assert BoundaryAt(r, i) == BoundaryAt(rest, i - 1);
          } else if |str| >= 2 {
            assert rest[0] == str[1];
          }
        }
      }
    }
  }

  /** A string without a lower-upper pair is left unchanged. */
  lemma {:induction false} LabelOfNoBoundary(str: string)
    requires NoBoundary(str)
    ensures GetLabelFromPascalCase(str) == str
  {
    if str != [] {
      assert !BoundaryAt(str, 0);
      forall i | 0 <= i < |str[1..]| ensures !BoundaryAt(str[1..], i) {
        assert !BoundaryAt(str, i + 1);
      }
      LabelOfNoBoundary(str[1..]);
    }
  }

  /** GetLabelFromPascalCase is idempotent, and changes its input exactly
      when the input has a lower-upper pair. */
  lemma LabelIdempotent(str: string)
    ensures GetLabelFromPascalCase(GetLabelFromPascalCase(str)) == GetLabelFromPascalCase(str)
    ensures GetLabelFromPascalCase(str) == str <==> NoBoundary(str)
  {
    LabelHasNoBoundary(str);
    LabelOfNoBoundary(GetLabelFromPascalCase(str));
    if NoBoundary(str) {
      LabelOfNoBoundary(str);
    }
  }

  /** A space goes in before the capital that follows a lower-case letter. */
  lemma LabelExample()
    ensures GetLabelFromPascalCase("tName") == "t Name"
  {
    var name := "Name";
    assert NoBoundary(name) by {
      forall i | 0 <= i < |name| ensures !BoundaryAt(name, i) {
        assert !IsUpper(name[i]) || i == 0;
      }
    }
    LabelOfNoBoundary(name);
    assert "tName"[1..] == name;
    assert BoundaryAt("tName", 0);
  }

}
