/**
 * The pieces of JavaScript's string handling that the dashboard relies on:
 * `String.prototype.trim`, the decimal text of a page number in a template
 * literal, `Number(...)` on a string of decimal digits, and
 * `URLSearchParams.get` on a query string.
 */
module JsText {

  import opened Wrappers

  /** WhiteSpace and LineTerminator code points (section 12.2 and 12.3 of ECMA-262), which `trim` removes. */
  function IsJsWhitespace(c: char): (b: bool)
    ensures c == ' ' || c == '\t' || c == '\n' || c == '\r' ==> b
    ensures b ==> !('0' <= c <= '9' || 'a' <= c <= 'z' || 'A' <= c <= 'Z' || c == '_')
  {
    var u := c as int;
    u == 0x09 || u == 0x0B || u == 0x0C || u == 0x20 || u == 0xA0 || u == 0xFEFF
    || u == 0x1680 || (0x2000 <= u <= 0x200A) || u == 0x202F || u == 0x205F || u == 0x3000
    || u == 0x0A || u == 0x0D || u == 0x2028 || u == 0x2029
  }

  predicate AllWhitespace(s: string) {
    forall i :: 0 <= i < |s| ==> IsJsWhitespace(s[i])
  }

  /** Drops leading white space: what remains is a suffix of the text. */
  function TrimStart(s: string): (r: string)
    ensures |r| <= |s| && r == s[|s| - |r|..]
  {
    if s == [] then s
    else if IsJsWhitespace(s[0]) then
      var r := TrimStart(s[1..]);
      assert s[1..][|s| - 1 - |r|..] == s[|s| - |r|..];
      r
    else s
  }

  /** What `TrimStart` drops is white space, and what it keeps starts with a non-space. */
  lemma {:induction false} TrimStartStrips(s: string)
    ensures AllWhitespace(s[..|s| - |TrimStart(s)|])
    ensures TrimStart(s) != [] ==> !IsJsWhitespace(TrimStart(s)[0])
  {
    if s != [] && IsJsWhitespace(s[0]) {
      TrimStartStrips(s[1..]);
      var k := |s| - |TrimStart(s)|;
      forall i | 0 <= i < k
        ensures IsJsWhitespace(s[..k][i])
      {
        if i > 0 {
          assert s[..k][i] == s[1..][..k - 1][i - 1];
        }
      }
    }
  }

  /** Drops trailing white space: what remains is a prefix of the text. */
  function TrimEnd(s: string): (r: string)
    ensures |r| <= |s| && r == s[..|r|]
  {
    if s == [] then s
    else if IsJsWhitespace(s[|s| - 1]) then TrimEnd(s[..|s| - 1])
    else s
  }

  /** What `TrimEnd` drops is white space, and what it keeps ends with a non-space. */
  lemma {:induction false} TrimEndStrips(s: string)
    ensures AllWhitespace(s[|TrimEnd(s)|..])
    ensures TrimEnd(s) != [] ==> !IsJsWhitespace(TrimEnd(s)[|TrimEnd(s)| - 1])
  {
    if s != [] && IsJsWhitespace(s[|s| - 1]) {
      TrimEndStrips(s[..|s| - 1]);
      var r := TrimEnd(s);
      assert s[|r|..] == s[..|s| - 1][|r|..] + [s[|s| - 1]];
    }
  }

  /** `s.trim()` */
  function Trim(s: string): (trimmed: string)
    ensures var k := |s| - |TrimStart(s)|; k + |trimmed| <= |s| && trimmed == s[k..k + |trimmed|]
  {
    TrimEnd(TrimStart(s))
  }

  /** A name trims to the empty string exactly when it is empty or all white space. */
  lemma TrimEmptyIffBlank(s: string)
    ensures Trim(s) == "" <==> AllWhitespace(s)
  {
    var t := TrimStart(s);
    TrimStartStrips(s);
    TrimEndStrips(t);
    if Trim(s) == "" {
      assert AllWhitespace(t[0..]);
      assert t == [];
      assert s[..|s|] == s;
    }
  }

  /** A decimal digit and its value. */
  predicate IsDigit(c: char) {
    '0' <= c <= '9'
  }

  function DigitChar(d: nat): (c: char)
    requires d < 10
    ensures IsDigit(c)
  {
    ('0' as int + d) as char
  }

  function DigitValue(c: char): (d: nat)
    requires IsDigit(c)
    ensures d < 10 && DigitChar(d) == c
  {
    (c as int - '0' as int)
  }

  predicate AllDigits(s: string) {
    forall i :: 0 <= i < |s| ==> IsDigit(s[i])
  }

  /** The decimal text of a natural number, as a template literal writes it: no sign, no leading zeros. */
  function DecimalString(n: nat): (s: string)
    ensures |s| >= 1 && AllDigits(s)
    ensures |s| > 1 ==> s[0] != '0'
  {
    if n < 10 then [DigitChar(n)]
    else
      var init := DecimalString(n / 10);
      init + [DigitChar(n % 10)]
  }

  /** The value of a string of decimal digits, leading zeros allowed. */
  function DigitsValue(s: string): nat
    requires AllDigits(s)
  {
    if s == [] then 0 else DigitsValue(s[..|s| - 1]) * 10 + DigitValue(s[|s| - 1])
  }

  /** `Number(s)` for a non-empty string of decimal digits; `None` for every other string. */
  function ParseDecimal(s: string): (n: Option<nat>)
    ensures n.Some? <==> s != [] && AllDigits(s)
  {
    if s != [] && AllDigits(s) then Some(DigitsValue(s)) else None
  }

  /** Printing a number and reading it back gives the number. */
  lemma {:induction false} DecimalRoundTrip(n: nat)
    ensures ParseDecimal(DecimalString(n)) == Some(n)
  {
    var s := DecimalString(n);
    if n >= 10 {
      DecimalRoundTrip(n / 10);
      var init := DecimalString(n / 10);
      assert s[..|s| - 1] == init;
      assert DigitsValue(s) == DigitsValue(init) * 10 + n % 10;
    }
  }

  /** `s.split(sep)`: the pieces between separators, always at least one. */
  function Split(s: string, sep: char): (parts: seq<string>)
    ensures |parts| >= 1
    ensures sep !in s ==> parts == [s]
  {
    if s == [] then [""]
    else
      var rest := Split(s[1..], sep);
      assert s == [s[0]] + s[1..];
      if s[0] == sep then [""] + rest else [[s[0]] + rest[0]] + rest[1..]
  }

  /** `parts.join(sep)`: the pieces with one separator between each two. */
  function Join(parts: seq<string>, sep: char): (s: string)
    ensures |parts| == 1 ==> s == parts[0]
  {
    if parts == [] then []
    else if |parts| == 1 then parts[0]
    else parts[0] + [sep] + Join(parts[1..], sep)
  }

  /** Putting a character before the first piece puts it before the joined text. */
  lemma JoinPrepend(c: char, parts: seq<string>, sep: char)
    requires parts != []
    ensures Join([[c] + parts[0]] + parts[1..], sep) == [c] + Join(parts, sep)
  {
    var parts' := [[c] + parts[0]] + parts[1..];
    assert parts'[0] == [c] + parts[0] && parts'[1..] == parts[1..];
  }

  /** Putting an empty piece and a separator first puts the separator before the joined text. */
  lemma JoinEmptyFirst(parts: seq<string>, sep: char)
    requires parts != []
    ensures Join([""] + parts, sep) == [sep] + Join(parts, sep)
  {
    assert ([""] + parts)[1..] == parts;
  }

  /** No piece of a split contains the separator, and joining the pieces gives the text back. */
  lemma {:induction false} SplitJoin(s: string, sep: char)
    ensures forall i :: 0 <= i < |Split(s, sep)| ==> sep !in Split(s, sep)[i]
    ensures Join(Split(s, sep), sep) == s
  {
    if s != [] {
      SplitJoin(s[1..], sep);
      var rest := Split(s[1..], sep);
      assert s == [s[0]] + s[1..];
      if s[0] == sep {
        JoinEmptyFirst(rest, sep);
      } else {
        JoinPrepend(s[0], rest, sep);
      }
    }
  }

  /** A piece without the separator, a separator, and the rest split as that piece followed by the rest's pieces. */
  lemma {:induction false} SplitCons(piece: string, sep: char, rest: string)
    requires sep !in piece
    ensures Split(piece + [sep] + rest, sep) == [piece] + Split(rest, sep)
  {
    var s := piece + [sep] + rest;
    if piece == [] {
      assert s == [sep] + rest;
      assert s[1..] == rest;
    } else {
      assert s[1..] == piece[1..] + [sep] + rest;
      SplitCons(piece[1..], sep, rest);
      assert [piece[0]] + piece[1..] == piece;
    }
  }

  /** Splitting joined pieces that contain no separator gives the pieces back. */
  lemma {:induction false} JoinSplit(parts: seq<string>, sep: char)
    requires parts != []
    requires forall i :: 0 <= i < |parts| ==> sep !in parts[i]
    ensures Split(Join(parts, sep), sep) == parts
  {
    if |parts| > 1 {
      JoinSplit(parts[1..], sep);
      SplitCons(parts[0], sep, Join(parts[1..], sep));
      assert parts == [parts[0]] + parts[1..];
    }
  }

  /** The name of a `name=value` pair: the text before its first `=`. */
  function PairName(pair: string): (name: string)
    ensures |name| <= |pair| && name == pair[..|name|] && '=' !in name
    ensures |name| < |pair| ==> pair[|name|] == '='
  {
    if pair == [] || pair[0] == '=' then []
    else [pair[0]] + PairName(pair[1..])
  }

  /** The value of a `name=value` pair: the text after its first `=`, or nothing without one. */
  function PairValue(pair: string): (value: string)
    ensures |PairName(pair)| < |pair| ==> pair == PairName(pair) + "=" + value
    ensures |PairName(pair)| == |pair| ==> value == []
  {
    var name := PairName(pair);
    if |name| < |pair| then pair[|name| + 1..] else []
  }

  /** A non-empty piece of the query whose name is `key`. */
  predicate PairCalled(pair: string, key: string) {
    pair != [] && PairName(pair) == key
  }

  /** The value of the first pair called `key`, skipping empty pieces as `URLSearchParams` does. */
  function Lookup(pairs: seq<string>, key: string): (v: Option<string>)
    ensures v.None? <==> forall i :: 0 <= i < |pairs| ==> !PairCalled(pairs[i], key)
    ensures v.Some? ==>
      (exists i :: 0 <= i < |pairs| && PairCalled(pairs[i], key) && v.value == PairValue(pairs[i]) &&
         (forall k :: 0 <= k < i ==> !PairCalled(pairs[k], key)))
  {
    if pairs == [] then None
    else if PairCalled(pairs[0], key) then Some(PairValue(pairs[0]))
    else Lookup(pairs[1..], key)
  }

  /** `new URLSearchParams(search).get(key)`: a leading `?` is ignored; `None` stands for `null`. */
  function QueryGet(search: string, key: string): (v: Option<string>)
    ensures search == [] ==> v == None
    ensures var query := if search != [] && search[0] == '?' then search[1..] else search;
      v == if query == [] then None else Lookup(Split(query, '&'), key)
  {
    var query := if search != [] && search[0] == '?' then search[1..] else search;
    if query == [] then None else Lookup(Split(query, '&'), key)
  }

  /** A query of one pair `key=value` gives back that value. */
  lemma QueryGetSinglePair(key: string, value: string)
    requires key != [] && '=' !in key && '&' !in key && '&' !in value
    ensures QueryGet("?" + key + "=" + value, key) == Some(value)
  {
    var pair := key + "=" + value;
    PairHasNoSeparator(key, value);
    PairNameOf(key, value);
    assert "?" + key + "=" + value == "?" + Join([pair], '&');
    QueryGetOfPairs([pair], key);
    assert PairCalled(pair, key);
    assert Lookup([pair], key) == Some(value);
  }

  /** A query string written as pairs joined by `&` reads as the first non-empty pair with the key. */
  lemma QueryGetOfPairs(pairs: seq<string>, key: string)
    requires pairs != []
    requires forall i :: 0 <= i < |pairs| ==> '&' !in pairs[i]
    ensures QueryGet("?" + Join(pairs, '&'), key) == Lookup(pairs, key)
  {
    var query := Join(pairs, '&');
    assert ("?" + query)[1..] == query;
    JoinSplit(pairs, '&');
    if query == [] {
      assert |pairs| == 1 && pairs[0] == [];
    }
  }

  lemma PairHasNoSeparator(key: string, value: string)
    requires '&' !in key && '&' !in value
    ensures '&' !in key + "=" + value
  {
    var pair := key + "=" + value;
    forall i | 0 <= i < |pair|
      ensures pair[i] != '&'
    {
      if i < |key| { assert pair[i] == key[i]; }
      else if i > |key| { assert pair[i] == value[i - |key| - 1]; }
    }
  }

  lemma {:induction false} PairNameOf(key: string, value: string)
    requires '=' !in key
    ensures PairName(key + "=" + value) == key
    ensures PairValue(key + "=" + value) == value
  {
    if key != [] {
      assert (key + "=" + value)[1..] == key[1..] + "=" + value;
      PairNameOf(key[1..], value);
    }
  }
}
