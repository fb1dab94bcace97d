/** The three Java string primitives the CSV reader relies on, written out:
    `String.trim()`, `String.split(";")` and `Integer.parseInt(String)`. */
module Text {
  import opened Options
  import opened Seqs

  /** Bounds of Java's 32-bit `int`; `INT_MAX` is `Integer.MAX_VALUE`. */
  const INT_MIN: int := -0x8000_0000
  const INT_MAX: int := 0x7fff_ffff

  // ---------------------------------------------------------------- trim

  /** `String.trim()` strips every character whose code is at most U+0020. */
  predicate IsSpace(c: char) { c <= ' ' }

  predicate AllSpace(s: string) { forall i :: 0 <= i < |s| ==> IsSpace(s[i]) }

  /** A string that neither starts nor ends with a character `trim` removes. */
  predicate IsTrimmed(t: string) { t == [] || (!IsSpace(t[0]) && !IsSpace(t[|t| - 1])) }

  /** The longest suffix of `s` that does not start with a space. */
  function TrimStart(s: string): (r: string)
    ensures |r| <= |s| && r == s[|s| - |r|..]
    ensures AllSpace(s[..|s| - |r|])
    ensures r == [] || !IsSpace(r[0])
  {
    if |s| > 0 && IsSpace(s[0]) then TrimStart(s[1..]) else s
  }

  /** The longest prefix of `s` that does not end with a space. */
  function TrimEnd(s: string): (r: string)
    ensures |r| <= |s| && r == s[..|r|]
    ensures AllSpace(s[|r|..])
    ensures r == [] || !IsSpace(r[|r| - 1])
  {
    if |s| > 0 && IsSpace(s[|s| - 1]) then
      var r := TrimEnd(s[..|s| - 1]);
      assert s[|r|..] == s[..|s| - 1][|r|..] + [s[|s| - 1]];
      r
    else s
  }

  /** `String.trim()`. */
  function Trim(s: string): (r: string)
    ensures |r| <= |s| && IsTrimmed(r)
  {
    TrimEnd(TrimStart(s))
  }

  lemma {:induction false} TrimStartOfPadded(l: string, t: string)
    requires AllSpace(l) && (t == [] || !IsSpace(t[0]))
    ensures TrimStart(l + t) == t
  {
    if l == [] {
      assert l + t == t;
    } else {
      assert (l + t)[0] == l[0] && (l + t)[1..] == l[1..] + t;
      TrimStartOfPadded(l[1..], t);
    }
  }

  lemma {:induction false} TrimEndOfPadded(t: string, rr: string)
    requires AllSpace(rr) && (t == [] || !IsSpace(t[|t| - 1]))
    ensures TrimEnd(t + rr) == t
  {
    if rr == [] {
      assert t + rr == t;
    } else {
      var s := t + rr;
      assert s[|s| - 1] == rr[|rr| - 1] && s[..|s| - 1] == t + rr[..|rr| - 1];
      TrimEndOfPadded(t, rr[..|rr| - 1]);
    }
  }

  /** Trimming removes exactly the surrounding spaces: a trimmed string with
      any amount of space around it trims back to itself. */
  lemma TrimOfPadded(l: string, t: string, rr: string)
    requires AllSpace(l) && AllSpace(rr) && IsTrimmed(t)
    ensures Trim(l + t + rr) == t
  {
    if t == [] {
      assert l + t + rr == l + rr;
      TrimStartOfPadded(l + rr, []);
      assert l + rr + [] == l + rr;
    } else {
      assert l + t + rr == l + (t + rr);
      TrimStartOfPadded(l, t + rr);
      TrimEndOfPadded(t, rr);
    }
  }

  /** Every string is its trimmed form with spaces around it. */
  lemma TrimDecomposes(s: string) returns (l: string, rr: string)
    ensures AllSpace(l) && AllSpace(rr) && s == l + Trim(s) + rr
  {
    var a := TrimStart(s);
    var t := TrimEnd(a);
    l := s[..|s| - |a|];
    rr := a[|t|..];
    TakeDrop(s, |s| - |a|);
    TakeDrop(a, |t|);
    AppendAssoc(l, t, rr);
  }

  /** A string already trimmed is left as it is. */
  lemma TrimOfTrimmed(t: string)
    requires IsTrimmed(t)
    ensures Trim(t) == t
  {
    TrimOfPadded([], t, []);
    AppendAssoc([], t, []);
    assert t + [] == t;
  }

  /** Trimming twice is trimming once. */
  lemma TrimIdempotent(s: string)
    ensures Trim(Trim(s)) == Trim(s)
  {
    TrimOfTrimmed(Trim(s));
  }

  // ---------------------------------------------------------------- split

  /** The fields of `s` between successive ';' separators, every empty field kept. */
  function Fields(s: string): (r: seq<string>)
    ensures |r| >= 1
    ensures forall i :: 0 <= i < |r| ==> ';' !in r[i]
  {
    if s == [] then [""]
    else
      var rest := Fields(s[1..]);
      if s[0] == ';' then [""] + rest
      else [[s[0]] + rest[0]] + rest[1..]
  }

  /** The fields separated by ';' again. */
  function Join(fs: seq<string>): string
    requires |fs| >= 1
  {
    if |fs| == 1 then fs[0] else fs[0] + ";" + Join(fs[1..])
  }

  /** `fs` with its trailing empty strings removed. */
  function DropTrailingEmpty(fs: seq<string>): (r: seq<string>)
    ensures |r| <= |fs| && r == fs[..|r|]
    ensures forall i :: |r| <= i < |fs| ==> fs[i] == ""
    ensures r == [] || r[|r| - 1] != ""
  {
    if |fs| > 0 && fs[|fs| - 1] == "" then DropTrailingEmpty(fs[..|fs| - 1]) else fs
  }

  /** `s.split(";")`: with no separator the whole string is the one field;
      otherwise the fields between separators, trailing empty ones dropped. */
  function Split(s: string): (r: seq<string>)
    ensures forall i :: 0 <= i < |r| ==> ';' !in r[i]
  {
    if ';' !in s then [s] else DropTrailingEmpty(Fields(s))
  }

  /** `k` separators in a row. */
  function Semicolons(k: nat): (r: string)
    ensures |r| == k && forall i :: 0 <= i < k ==> r[i] == ';'
  {
    if k == 0 then [] else Semicolons(k - 1) + [';']
  }

  function Empties(k: nat): (r: seq<string>)
    ensures |r| == k && forall i :: 0 <= i < k ==> r[i] == ""
  {
    if k == 0 then [] else Empties(k - 1) + [""]
  }

  /** Joining the fields of a string gives the string back. */
  lemma {:induction false} JoinFields(s: string)
    ensures Join(Fields(s)) == s
  {
    if s != [] {
      var rest := Fields(s[1..]);
      JoinFields(s[1..]);
      if s[0] == ';' {
        assert ([""] + rest)[1..] == rest;
      } else if |rest| > 1 {
        var fs := [[s[0]] + rest[0]] + rest[1..];
        assert fs[1..] == rest[1..];
        assert Join(rest) == rest[0] + ";" + Join(rest[1..]);
        assert s == [s[0]] + s[1..];
      } else {
        assert s == [s[0]] + s[1..];
      }
    }
  }

  lemma {:induction false} FieldsOfPrefixed(x: string, tail: string)
    requires ';' !in x
    ensures Fields(x + tail) == [x + Fields(tail)[0]] + Fields(tail)[1..]
  {
    if x != [] {
      FieldsOfPrefixed(x[1..], tail);
      assert (x + tail)[1..] == x[1..] + tail;
      assert (x + tail)[0] == x[0];
      assert [x[0]] + (x[1..] + Fields(tail)[0]) == x + Fields(tail)[0];
    } else {
      assert x + tail == tail;
      var f := Fields(tail);
      assert f == [f[0]] + f[1..];
      assert x + f[0] == f[0];
    }
  }

  /** Splitting the join of separator-free fields gives the fields back. */
  lemma {:induction false} FieldsJoin(fs: seq<string>)
    requires |fs| >= 1 && forall i :: 0 <= i < |fs| ==> ';' !in fs[i]
    ensures Fields(Join(fs)) == fs
  {
    if |fs| == 1 {
      FieldsOfPrefixed(fs[0], "");
      assert fs[0] + "" == fs[0];
      assert Join(fs) == fs[0];
      assert Fields("") == [""];
      assert Fields(fs[0]) == [fs[0]];
      assert fs == [fs[0]];
    } else {
      var j := Join(fs[1..]);
      FieldsJoin(fs[1..]);
      FieldsOfPrefixed(fs[0], ";" + j);
      var sj := ";" + j;
      assert sj[1..] == j && sj[0] == ';' && sj != [];
      assert Join(fs) == fs[0] + sj;
      assert Fields(sj) == [""] + Fields(j);
      assert Fields(sj)[0] == "" && Fields(sj)[1..] == fs[1..];
      assert fs[0] + "" == fs[0];
      assert fs == [fs[0]] + fs[1..];
    }
  }

  lemma {:induction false} JoinAppendEmpties(fs: seq<string>, k: nat)
    requires |fs| >= 1
    ensures Join(fs + Empties(k)) == Join(fs) + Semicolons(k)
  {
    if k > 0 {
      JoinAppendEmpties(fs, k - 1);
      JoinAppendOne(fs + Empties(k - 1), "");
      assert fs + Empties(k) == fs + Empties(k - 1) + [""];
      assert Semicolons(k) == Semicolons(k - 1) + ";";
    } else {
      assert fs + Empties(0) == fs;
    }
  }

  lemma {:induction false} JoinAppendOne(fs: seq<string>, x: string)
    requires |fs| >= 1
    ensures Join(fs + [x]) == Join(fs) + ";" + x
  {
    if |fs| > 1 {
      JoinAppendOne(fs[1..], x);
      assert (fs + [x])[1..] == fs[1..] + [x];
    }
  }

  /** A record of three separator-free fields, the last one non-empty,
      followed by any number of separators. */
  ghost predicate IsRecordShape(line: string, a: string, b: string, c: string, k: nat)
  {
    && ';' !in a && ';' !in b && ';' !in c && c != ""
    && line == a + ";" + b + ";" + c + Semicolons(k)
  }

  /** Every line of record shape splits into exactly its three fields. */
  lemma SplitRecord(line: string, a: string, b: string, c: string, k: nat)
    requires IsRecordShape(line, a, b, c, k)
    ensures Split(line) == [a, b, c]
  {
    var fs := [a, b, c] + Empties(k);
    assert Join([a, b, c]) == a + ";" + b + ";" + c by {
      assert [a, b, c][1..] == [b, c];
      assert [b, c][1..] == [c];
      assert Join([c]) == c;
      assert Join([b, c]) == b + ";" + c;
      assert Join([a, b, c]) == a + ";" + (b + ";" + c);
    }
    JoinAppendEmpties([a, b, c], k);
    forall i | 0 <= i < |fs| ensures ';' !in fs[i] {
      if i >= 3 { assert fs[i] == ""; }
    }
    FieldsJoin(fs);
    assert ';' in line by { assert line[|a|] == ';'; }
    var r := DropTrailingEmpty(fs);
    assert fs[2] == c;
    assert r == fs[..3] == [a, b, c];
  }

  /** Conversely, a line that splits into exactly three fields is of record shape. */
  lemma SplitThreeIsRecord(line: string) returns (k: nat)
    requires |Split(line)| == 3
    ensures IsRecordShape(line, Split(line)[0], Split(line)[1], Split(line)[2], k)
  {
    var fs := Fields(line);
    var r := Split(line);
    assert ';' in line;
    k := |fs| - 3;
    assert fs == r + Empties(k);
    JoinAppendEmpties(r, k);
    JoinFields(line);
    assert Join(r) == r[0] + ";" + r[1] + ";" + r[2] by {
      assert r[1..] == [r[1], r[2]];
      assert r[1..][1..] == [r[2]];
      assert Join([r[2]]) == r[2];
      assert Join([r[1], r[2]]) == r[1] + ";" + r[2];
      assert Join(r) == r[0] + ";" + (r[1] + ";" + r[2]);
    }
  }

  // ---------------------------------------------------------------- parseInt

  predicate IsDigit(c: char) { '0' as int <= c as int <= '9' as int }

  /** One or more ASCII decimal digits. */
  predicate IsNumeral(s: string) { |s| > 0 && forall i :: 0 <= i < |s| ==> IsDigit(s[i]) }

  function DigitValue(c: char): nat
    requires IsDigit(c)
  {
    c as int - '0' as int
  }

  /** The value of a string of decimal digits, most significant first. */
  function DigitsValue(s: string): nat
    requires forall i :: 0 <= i < |s| ==> IsDigit(s[i])
  {
    if s == [] then 0 else DigitsValue(s[..|s| - 1]) * 10 + DigitValue(s[|s| - 1])
  }

  /** `Integer.parseInt(s)`, with `None` for the `NumberFormatException`:
      an optional '+' or '-', then at least one digit, and a value that fits an `int`. */
  function ParseInt(s: string): (r: Option<int>)
    ensures r.Some? ==> INT_MIN <= r.value <= INT_MAX
  {
    if |s| > 1 && (s[0] == '-' || s[0] == '+') && IsNumeral(s[1..]) then
      var mag: int := DigitsValue(s[1..]);
      var v: int := if s[0] == '-' then -mag else mag;
      if INT_MIN <= v <= INT_MAX then Some(v) else None
    else if IsNumeral(s) then
      var v := DigitsValue(s);
      if v <= INT_MAX then Some(v) else None
    else None
  }

  function DigitChar(d: nat): (c: char)
    requires d < 10
    ensures IsDigit(c)
  {
    ('0' as int + d) as char
  }

  /** The shortest decimal numeral of `n`. */
  function NatToString(n: nat): (r: string)
    ensures IsNumeral(r)
  {
    if n < 10 then [DigitChar(n)] else NatToString(n / 10) + [DigitChar(n % 10)]
  }

  /** `Integer.toString(n)`. */
  function IntToString(n: int): (r: string)
    ensures |r| > 0 && IsTrimmed(r)
    ensures forall i :: 0 <= i < |r| ==> r[i] == '-' || IsDigit(r[i])
  {
    if n < 0 then "-" + NatToString(-n) else NatToString(n)
  }

  lemma {:induction false} NatToStringValue(n: nat)
    ensures DigitsValue(NatToString(n)) == n
  {
    if n >= 10 {
      NatToStringValue(n / 10);
      var s := NatToString(n);
      assert s[..|s| - 1] == NatToString(n / 10);
    }
  }

  /** `Integer.parseInt` reads back every `int` that `Integer.toString` writes. */
  lemma ParseIntToString(n: int)
    requires INT_MIN <= n <= INT_MAX
    ensures ParseInt(IntToString(n)) == Some(n)
  {
    var s := IntToString(n);
    if n < 0 {
      NatToStringValue(-n);
      assert s[1..] == NatToString(-n);
    } else {
      NatToStringValue(n);
      assert IsDigit(s[0]);
    }
  }
}
