/** The few pieces of Python's `str` that the chatbot relies on: `isspace` and
    `strip`, text built by `+=`, `sep.join(parts)` and `str(n)` of a count. */
module Strings {

  /** Python's `str.isspace` for one character: the characters that `strip()`
      with no argument removes. */
  predicate IsSpace(c: char) {
    ('\t' <= c <= '\r') || ('\U{1C}' <= c <= ' ') || c == '\U{85}' || c == '\U{A0}' ||
    c == '\U{1680}' || ('\U{2000}' <= c <= '\U{200A}') || c == '\U{2028}' || c == '\U{2029}' ||
    c == '\U{202F}' || c == '\U{205F}' || c == '\U{3000}'
  }

  /** Every character of `s` is whitespace (vacuously so for ""). */
  predicate AllSpace(s: string) {
    forall i :: 0 <= i < |s| ==> IsSpace(s[i])
  }

  lemma AllSpaceAppend(x: string, y: string)
    ensures AllSpace(x + y) <==> AllSpace(x) && AllSpace(y)
  {
    if AllSpace(x) && AllSpace(y) {
      forall i | 0 <= i < |x + y| ensures IsSpace((x + y)[i]) {
        if i >= |x| { assert (x + y)[i] == y[i - |x|]; }
      }
    }
    if AllSpace(x + y) {
      forall i | 0 <= i < |x| ensures IsSpace(x[i]) {
        assert (x + y)[i] == x[i];
      }
      forall i | 0 <= i < |y| ensures IsSpace(y[i]) {
        assert (x + y)[|x| + i] == y[i];
      }
    }
  }

  /** `s.lstrip()`: what is left of `s` once its leading whitespace is dropped. */
  function TrimStart(s: string): (r: string)
    ensures |r| <= |s| && r == s[|s| - |r|..]
    ensures AllSpace(s[..|s| - |r|])
    ensures r == [] || !IsSpace(r[0])
  {
    if s != [] && IsSpace(s[0]) then
      var rest := s[1..];
      var r := TrimStart(rest);
      assert s[..|s| - |r|] == [s[0]] + rest[..|rest| - |r|];
      AllSpaceAppend([s[0]], rest[..|rest| - |r|]);
      r
    else s
  }

  /** `s.rstrip()`: what is left of `s` once its trailing whitespace is dropped. */
  function TrimEnd(s: string): (r: string)
    ensures |r| <= |s| && r == s[..|r|]
    ensures AllSpace(s[|r|..])
    ensures r == [] || !IsSpace(r[|r| - 1])
  {
    if s != [] && IsSpace(s[|s| - 1]) then
      var init := s[..|s| - 1];
      var r := TrimEnd(init);
      assert s[|r|..] == init[|r|..] + [s[|s| - 1]];
      AllSpaceAppend(init[|r|..], [s[|s| - 1]]);
      r
    else s
  }

  /** `s.strip()`, as `s.lstrip().rstrip()`: the contracts of `TrimStart` and
      `TrimEnd` fix which piece of `s` is left. This contract promises what the
      loader's blank test needs: the result is empty exactly when `s` is
      whitespace only, and otherwise neither starts nor ends with whitespace. */
  function Strip(s: string): (r: string)
    ensures |r| <= |s|
    ensures r == [] <==> AllSpace(s)
    ensures r != [] ==> !IsSpace(r[0]) && !IsSpace(r[|r| - 1])
  {
    StripEnds(s);
    TrimEnd(TrimStart(s))
  }

  /** What stripping both ends leaves: nothing exactly for whitespace-only
      text, otherwise text with non-whitespace at both ends. */
  lemma StripEnds(s: string)
    ensures var r := TrimEnd(TrimStart(s));
            (r == [] <==> AllSpace(s)) && (r != [] ==> !IsSpace(r[0]) && !IsSpace(r[|r| - 1]))
  {
    var t := TrimStart(s);
    var r := TrimEnd(t);
    if t == [] {
      assert s[..|s|] == s;
    } else {
      assert s[|s| - |t|] == t[0];
      assert t[0..] == t;
      assert !AllSpace(t);
      assert r != [];
      assert r[0] == t[0];
    }
  }

  /** `not s.strip()`: the text is empty or whitespace only. */
  predicate IsBlank(s: string) {
    Strip(s) == []
  }

  /** The text that `text = ""` followed by `text += part` for each part, in
      order, leaves behind. */
  function Concat(parts: seq<string>): string {
    if parts == [] then "" else Concat(parts[..|parts| - 1]) + parts[|parts| - 1]
  }

  /** Concatenating two runs of parts is concatenating their texts. */
  lemma {:induction false} ConcatAppend(a: seq<string>, b: seq<string>)
    ensures Concat(a + b) == Concat(a) + Concat(b)
    decreases |b|
  {
    if b == [] {
      assert a + b == a;
    } else {
      var b' := b[..|b| - 1];
      assert (a + b)[..|a + b| - 1] == a + b';
      ConcatAppend(a, b');
    }
  }

  /** Part `i` sits in the concatenation right after the text of the parts
      before it: the parts appear whole and in their order. */
  lemma ConcatPartAt(parts: seq<string>, i: nat)
    requires i < |parts|
    ensures var start := |Concat(parts[..i])|;
            start + |parts[i]| <= |Concat(parts)| &&
            Concat(parts)[start..start + |parts[i]|] == parts[i]
  {
    var rest := [parts[i]] + parts[i + 1..];
    assert parts == parts[..i] + rest;
    ConcatAppend(parts[..i], rest);
    ConcatAppend([parts[i]], parts[i + 1..]);
    assert [parts[i]][..0] == [];
  }

  /** The concatenation is whitespace only exactly when every part is. */
  lemma {:induction false} ConcatAllSpace(parts: seq<string>)
    ensures AllSpace(Concat(parts)) <==> forall i :: 0 <= i < |parts| ==> AllSpace(parts[i])
  {
    if parts != [] {
      var init, last := parts[..|parts| - 1], parts[|parts| - 1];
      ConcatAllSpace(init);
      AllSpaceAppend(Concat(init), last);
      assert forall i :: 0 <= i < |init| ==> init[i] == parts[i];
    }
  }

  /** Python's `sep.join(parts)`. */
  function Join(sep: string, parts: seq<string>): string {
    if parts == [] then ""
    else if |parts| == 1 then parts[0]
    else Join(sep, parts[..|parts| - 1]) + sep + parts[|parts| - 1]
  }

  /** Joining two non-empty runs of parts puts one separator between their joins. */
  lemma {:induction false} JoinAppend(sep: string, a: seq<string>, b: seq<string>)
    requires a != [] && b != []
    ensures Join(sep, a + b) == Join(sep, a) + sep + Join(sep, b)
    decreases |b|
  {
    var ab := a + b;
    var b', last := b[..|b| - 1], b[|b| - 1];
    assert ab[..|ab| - 1] == a + b' && ab[|ab| - 1] == last;
    if |b| == 1 {
      assert a + b' == a;
    } else {
      calc {
        Join(sep, ab);
        Join(sep, a + b') + sep + last;
        { JoinAppend(sep, a, b'); }
        Join(sep, a) + sep + Join(sep, b') + sep + last;
        Join(sep, a) + sep + (Join(sep, b') + sep + last);
        Join(sep, a) + sep + Join(sep, b);
      }
    }
  }

  /** The join is as long as its parts together plus one separator between
      each neighbouring pair. */
  lemma {:induction false} JoinLength(sep: string, parts: seq<string>)
    requires parts != []
    ensures |Join(sep, parts)| == |Concat(parts)| + (|parts| - 1) * |sep|
  {
    if |parts| == 1 {
      assert parts[..0] == [];
    } else {
      var n, k := |parts|, |sep|;
      JoinLength(sep, parts[..n - 1]);
      assert (n - 2) * k + k == (n - 1) * k;
    }
  }

  /** Part `i` sits in the join right after the join of the parts before it and
      one separator: every part appears whole and in its order. */
  lemma JoinPartAt(sep: string, parts: seq<string>, i: nat)
    requires i < |parts|
    ensures var start := if i == 0 then 0 else |Join(sep, parts[..i])| + |sep|;
            start + |parts[i]| <= |Join(sep, parts)| &&
            Join(sep, parts)[start..start + |parts[i]|] == parts[i]
  {
    var tail, p := parts[i..], parts[i];
    var jt := Join(sep, tail);
    assert |p| <= |jt| && jt[..|p|] == p by {
      if |tail| == 1 {
        assert tail == [p];
      } else {
        assert tail == [p] + tail[1..];
        JoinAppend(sep, [p], tail[1..]);
      }
    }
    if i == 0 {
      assert parts == tail;
    } else {
      assert parts == parts[..i] + tail;
      JoinAppend(sep, parts[..i], tail);
      var pre := Join(sep, parts[..i]) + sep;
      assert Join(sep, parts) == pre + jt;
      assert (pre + jt)[|pre|..|pre| + |p|] == jt[..|p|];
    }
  }

  /** The character of the decimal digit `d`. */
  function DigitChar(d: nat): (c: char)
    requires d < 10
    ensures '0' <= c <= '9' && c as int - '0' as int == d
  {
    ('0' as int + d) as char
  }

  /** Every character of `s` is a decimal digit. */
  predicate IsDecimal(s: string) {
    forall i :: 0 <= i < |s| ==> '0' <= s[i] <= '9'
  }

  /** Python's `str(n)` for a natural number: decimal digits, most significant
      first, with no leading zero. */
  function NatToString(n: nat): (r: string)
    ensures r != [] && IsDecimal(r)
    ensures r[0] == '0' ==> n == 0
  {
    if n < 10 then [DigitChar(n)] else NatToString(n / 10) + [DigitChar(n % 10)]
  }

  /** The number a string of decimal digits spells, as Python's `int(s)` reads it. */
  function DecimalValue(s: string): nat
    requires IsDecimal(s)
  {
    if s == [] then 0 else DecimalValue(s[..|s| - 1]) * 10 + (s[|s| - 1] as int - '0' as int)
  }

  /** `int(str(n)) == n`. */
  lemma {:induction false} NatToStringRoundTrip(n: nat)
    ensures DecimalValue(NatToString(n)) == n
  {
    var r := NatToString(n);
    if n < 10 {
      assert r[..0] == [];
    } else {
      assert r[..|r| - 1] == NatToString(n / 10);
      NatToStringRoundTrip(n / 10);
    }
  }
}
