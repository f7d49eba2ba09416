/**
  * The JavaScript string operations the program relies on, on `seq<char>`:
  * `trim()`, `split(" ")`, `join(sep)`, `toLowerCase()`, `substring(0, n)`,
  * `includes(t)` and the decimal rendering of a number inside a template string.
  */
module Text {

  import opened Seqs

  /** The characters `String.prototype.trim` removes: ECMAScript WhiteSpace and LineTerminator. */
  predicate IsJsWhitespace(c: char) {
    c == '\t' || c == '\n' || c == '\U{B}' || c == '\U{C}' || c == '\r' || c == ' ' ||
    c == '\U{A0}' || c == '\U{1680}' || ('\U{2000}' <= c <= '\U{200A}') ||
    c == '\U{2028}' || c == '\U{2029}' || c == '\U{202F}' || c == '\U{205F}' ||
    c == '\U{3000}' || c == '\U{FEFF}'
  }

  /** Drops leading whitespace. */
  function TrimStart(s: string): (r: string)
    ensures |r| <= |s| && r == s[|s| - |r|..]
    ensures forall i :: 0 <= i < |s| - |r| ==> IsJsWhitespace(s[i])
    ensures r == [] || !IsJsWhitespace(r[0])
    decreases |s|
  {
    if s != [] && IsJsWhitespace(s[0]) then TrimStart(s[1..]) else s
  }

  /** Drops trailing whitespace. */
  function TrimEnd(s: string): (r: string)
    ensures |r| <= |s| && r == s[..|r|]
    ensures forall i :: |r| <= i < |s| ==> IsJsWhitespace(s[i])
    ensures r == [] || !IsJsWhitespace(r[|r| - 1])
    decreases |s|
  {
    if s != [] && IsJsWhitespace(s[|s| - 1]) then TrimEnd(s[..|s| - 1]) else s
  }

  /** `s.trim()`: the slice of `s` left once whitespace is dropped from both ends. */
  function Trim(s: string): (r: string)
    ensures |r| <= |s|
    ensures r == [] || (!IsJsWhitespace(r[0]) && !IsJsWhitespace(r[|r| - 1]))
    ensures r == [] <==> forall i :: 0 <= i < |s| ==> IsJsWhitespace(s[i])
  {
    var t := TrimStart(s);
    assert t != [] ==> s[|s| - |t|] == t[0];
    TrimEnd(t)
  }

  /**
    * `trim` keeps the input's own characters: the result is the slice between a
    * whitespace-only prefix and a whitespace-only suffix of the input.
    */
  lemma TrimIsSlice(s: string)
    ensures exists i, j :: 0 <= i <= j <= |s| && Trim(s) == s[i..j] &&
                           (forall k :: 0 <= k < i ==> IsJsWhitespace(s[k])) &&
                           (forall k :: j <= k < |s| ==> IsJsWhitespace(s[k]))
  {
    var t := TrimStart(s);
    var i := |s| - |t|;
    var r := TrimEnd(t);
    SliceOfSuffix(s, i, r);
    assert Trim(s) == r;
    assert 0 <= i <= i + |r| <= |s| && Trim(s) == s[i..i + |r|] &&
           (forall k :: 0 <= k < i ==> IsJsWhitespace(s[k])) &&
           (forall k :: i + |r| <= k < |s| ==> IsJsWhitespace(s[k]));
  }

  /** A whitespace-trailed prefix of the suffix of `s` from `i` is a slice of `s`, trailed by whitespace in `s`. */
  lemma SliceOfSuffix(s: string, i: nat, r: string)
    requires i <= |s| && |r| <= |s| - i && r == s[i..][..|r|]
    requires forall k :: |r| <= k < |s| - i ==> IsJsWhitespace(s[i..][k])
    ensures r == s[i..i + |r|]
    ensures forall k :: i + |r| <= k < |s| ==> IsJsWhitespace(s[k])
  {
    forall k | i + |r| <= k < |s| ensures IsJsWhitespace(s[k]) {
      assert s[k] == s[i..][k - i];
    }
  }

  /** Trimming a trimmed string changes nothing. */
  lemma TrimIdempotent(s: string)
    ensures Trim(Trim(s)) == Trim(s)
  {
    var r := Trim(s);
    if r != [] {
      assert TrimStart(r) == r;
      assert TrimEnd(r) == r;
    }
  }

  /** A non-empty string with no whitespace at either end: what a non-blank `trim()` returns. */
  predicate Trimmed(s: string) {
    s != [] && !IsJsWhitespace(s[0]) && !IsJsWhitespace(s[|s| - 1])
  }

  /** A trimmed string is its own trim. */
  lemma TrimUnchanged(s: string)
    requires Trimmed(s)
    ensures Trim(s) == s
  {
    assert TrimStart(s) == s;
    assert TrimEnd(s) == s;
  }

  /** `s.toLowerCase()` on one character: ASCII and Latin-1 capitals. */
  function LowerChar(c: char): (d: char)
    ensures (d == ' ') <==> (c == ' ')
  {
    if 'A' <= c <= 'Z' || ('\U{C0}' <= c <= '\U{DE}' && c != '\U{D7}')
    then (c as int + 32) as char
    else c
  }

  /** `s.toLowerCase()`. */
  function Lower(s: string): (r: string)
    ensures |r| == |s|
    ensures forall i :: 0 <= i < |s| ==> r[i] == LowerChar(s[i])
  {
    seq(|s|, i requires 0 <= i < |s| => LowerChar(s[i]))
  }

  /** Lower-casing works character by character, so it distributes over concatenation. */
  lemma LowerAppend(a: string, b: string)
    ensures Lower(a + b) == Lower(a) + Lower(b)
  {
  }

  /**
    * `s.split(sep)` for a one-character separator: the pieces between separators,
    * so two adjacent separators give an empty piece and the empty string gives `[""]`.
    */
  function Split(s: string, sep: char): (parts: seq<string>)
    ensures |parts| >= 1
    ensures forall k :: 0 <= k < |parts| ==> sep !in parts[k]
    decreases |s|
  {
    if s == [] then [""]
    else
      var rest := Split(s[1..], sep);
      if s[0] == sep then [""] + rest
      else [[s[0]] + rest[0]] + rest[1..]
  }

  /** `parts.join(sep)`. */
  function Join(parts: seq<string>, sep: string): string
    decreases |parts|
  {
    if parts == [] then ""
    else if |parts| == 1 then parts[0]
    else parts[0] + sep + Join(parts[1..], sep)
  }

  /** Joining the pieces of a split with the separator gives back the string. */
  lemma {:induction false} JoinSplit(s: string, sep: char)
    ensures Join(Split(s, sep), [sep]) == s
    decreases |s|
  {
    if s != [] {
      var c, t := s[0], s[1..];
      var rest := Split(t, sep);
      JoinSplit(t, sep);
      assert s == [c] + t;
      if c == sep {
        assert Join(Split(s, sep), [sep]) == "" + [sep] + Join(rest, [sep]);
      } else {
        var parts := [[c] + rest[0]] + rest[1..];
        assert Split(s, sep) == parts;
        if |rest| == 1 {
          assert Join(parts, [sep]) == [c] + Join(rest, [sep]);
        } else {
          assert parts[1..] == rest[1..];
          assert Join(rest, [sep]) == rest[0] + [sep] + Join(rest[1..], [sep]);
          assert Join(parts, [sep]) == [c] + rest[0] + [sep] + Join(rest[1..], [sep]);
        }
        assert Join(parts, [sep]) == [c] + t;
      }
    }
  }

  /** A piece without the separator stays glued to whatever follows it. */
  lemma {:induction false} SplitGlued(p: string, r: string, sep: char)
    requires sep !in p
    ensures Split(p + r, sep) == [p + Split(r, sep)[0]] + Split(r, sep)[1..]
    decreases |p|
  {
    if p != [] {
      var q := p + r;
      var S := Split(r, sep);
      assert q[0] == p[0] && p[0] in p;
      assert q[1..] == p[1..] + r;
      SplitGlued(p[1..], r, sep);
      assert Split(q[1..], sep) == [p[1..] + S[0]] + S[1..];
      assert Split(q, sep) == [[q[0]] + (p[1..] + S[0])] + S[1..];
      assert [p[0]] + (p[1..] + S[0]) == p + S[0];
    } else {
      assert p + r == r;
      assert p + Split(r, sep)[0] == Split(r, sep)[0];
      assert Split(r, sep) == [Split(r, sep)[0]] + Split(r, sep)[1..];
    }
  }

  /** Splitting a join of separator-free pieces gives back the pieces. */
  lemma {:induction false} SplitJoin(parts: seq<string>, sep: char)
    requires |parts| >= 1
    requires forall k :: 0 <= k < |parts| ==> sep !in parts[k]
    ensures Split(Join(parts, [sep]), sep) == parts
    decreases |parts|
  {
    if |parts| == 1 {
      SplitGlued(parts[0], "", sep);
      assert parts[0] + "" == parts[0];
    } else {
      var tail := Join(parts[1..], [sep]);
      SplitJoin(parts[1..], sep);
      assert Join(parts, [sep]) == parts[0] + ([sep] + tail);
      SplitGlued(parts[0], [sep] + tail, sep);
      assert ([sep] + tail)[1..] == tail;
      assert Split([sep] + tail, sep) == [""] + parts[1..];
      assert parts[0] + "" == parts[0];
      assert parts == [parts[0]] + parts[1..];
    }
  }

  /** Splitting around one separator: the pieces of the left part, then those of the right part. */
  lemma {:induction false} SplitAround(a: string, b: string, sep: char)
    ensures Split(a + [sep] + b, sep) == Split(a, sep) + Split(b, sep)
    decreases |a|
  {
    if a == [] {
      assert a + [sep] + b == [sep] + b;
      assert ([sep] + b)[1..] == b;
    } else {
      var t := a + [sep] + b;
      assert t[0] == a[0] && t[1..] == a[1..] + [sep] + b;
      SplitAround(a[1..], b, sep);
    }
  }

  /** A string without the separator is a single piece. */
  lemma SplitNone(p: string, sep: char)
    requires sep !in p
    ensures Split(p, sep) == [p]
  {
    SplitJoin([p], sep);
  }

  /** Two separator-free pieces around one separator split back into those two pieces. */
  lemma SplitTwo(p: string, q: string, sep: char)
    requires sep !in p && sep !in q
    ensures Split(p + [sep] + q, sep) == [p, q]
  {
    SplitJoin([p, q], sep);
    assert Join([p, q], [sep]) == p + [sep] + Join([q], [sep]);
  }

  /** A string splits into two or more pieces exactly when it holds the separator. */
  lemma {:induction false} SplitMany(s: string, sep: char)
    ensures |Split(s, sep)| >= 2 <==> sep in s
    decreases |s|
  {
    if s != [] {
      SplitMany(s[1..], sep);
      assert s == [s[0]] + s[1..];
    }
  }

  /** Lower-casing never creates or removes a space, so it commutes with splitting on spaces. */
  lemma {:induction false} LowerSplit(s: string)
    ensures Split(Lower(s), ' ') == Map(Lower, Split(s, ' '))
    decreases |s|
  {
    if s != [] {
      var c, t := s[0], s[1..];
      var rest := Split(t, ' ');
      LowerSplit(t);
      assert Lower(s)[0] == LowerChar(c) && Lower(s)[1..] == Lower(t);
      if c == ' ' {
        MapCons(Lower, "", rest);
      } else {
        assert rest == [rest[0]] + rest[1..];
        MapCons(Lower, rest[0], rest[1..]);
        MapCons(Lower, [c] + rest[0], rest[1..]);
        assert Lower([c] + rest[0]) == [LowerChar(c)] + Lower(rest[0]);
      }
    }
  }

  /** `s.substring(0, n)`: the first `n` characters, or all of `s` when it is shorter. */
  function Prefix(s: string, n: nat): (r: string)
    ensures |r| == if |s| <= n then |s| else n
    ensures r == s[..|r|]
  {
    if |s| <= n then s else s[..n]
  }

  /** Taking a prefix commutes with lower-casing. */
  lemma PrefixLower(s: string, n: nat)
    ensures Prefix(Lower(s), n) == Lower(Prefix(s, n))
  {
  }

  /** `t` occurs in `s` starting at position `i`. */
  predicate OccursAt(s: string, t: string, i: int) {
    0 <= i && i + |t| <= |s| && s[i..i + |t|] == t
  }

  /** `s.includes(t)`. */
  predicate Contains(s: string, t: string) {
    exists i | 0 <= i <= |s| - |t| :: OccursAt(s, t, i)
  }

  /** A string contains whatever it is built around. */
  lemma ContainsInfix(a: string, t: string, b: string)
    ensures Contains(a + t + b, t)
  {
    assert OccursAt(a + t + b, t, |a|);
  }

  /** Text contained in `t` is still contained once something is put in front of `t`. */
  lemma ContainsAfter(pre: string, t: string, part: string)
    requires Contains(t, part)
    ensures Contains(pre + t, part)
  {
    var i :| 0 <= i <= |t| - |part| && OccursAt(t, part, i);
    assert (pre + t)[|pre| + i..|pre| + i + |part|] == t[i..i + |part|];
    assert OccursAt(pre + t, part, |pre| + i);
  }

  /** A joined list contains each of its parts. */
  lemma {:induction false} JoinContains(parts: seq<string>, sep: string, k: nat)
    requires k < |parts|
    ensures Contains(Join(parts, sep), parts[k])
    decreases |parts|
  {
    if |parts| == 1 {
      ContainsInfix([], parts[0], []);
      assert [] + parts[0] + [] == parts[0];
    } else if k == 0 {
      ContainsInfix([], parts[0], sep + Join(parts[1..], sep));
      assert [] + parts[0] + (sep + Join(parts[1..], sep)) == Join(parts, sep);
    } else {
      var t := Join(parts[1..], sep);
      assert parts[1..][k - 1] == parts[k];
      JoinContains(parts[1..], sep, k - 1);
      ContainsAfter(parts[0] + sep, t, parts[k]);
      assert Join(parts, sep) == (parts[0] + sep) + t;
    }
  }

  /** A string cannot contain a text whose first character it lacks. */
  lemma NotContainsHead(s: string, t: string)
    requires |t| > 0 && t[0] !in s
    ensures !Contains(s, t)
  {
    forall i | 0 <= i <= |s| - |t| ensures !OccursAt(s, t, i) {
      assert s[i] in s;
      assert s[i..i + |t|][0] == s[i];
    }
  }

  predicate IsDigit(c: char) { '0' <= c <= '9' }

  function DigitChar(d: nat): (c: char)
    requires d < 10
    ensures IsDigit(c)
  {
    ('0' as int + d) as char
  }

  function DigitValue(c: char): nat
    requires IsDigit(c)
  {
    c as int - '0' as int
  }

  /** `${n}` for a natural number: its decimal digits, most significant first. */
  function NatToString(n: nat): (r: string)
    ensures |r| >= 1
    ensures forall i :: 0 <= i < |r| ==> IsDigit(r[i])
  {
    if n < 10 then [DigitChar(n)] else NatToString(n / 10) + [DigitChar(n % 10)]
  }

  /** Reads a string of decimal digits back as a number. */
  function ParseDecimal(s: string): nat
    requires forall i :: 0 <= i < |s| ==> IsDigit(s[i])
  {
    if s == [] then 0 else ParseDecimal(s[..|s| - 1]) * 10 + DigitValue(s[|s| - 1])
  }

  /** Rendering a number in decimal loses nothing: reading it back gives the number. */
  lemma {:induction false} DecimalRoundTrip(n: nat)
    ensures ParseDecimal(NatToString(n)) == n
  {
    if n >= 10 {
      var r := NatToString(n);
      assert r[..|r| - 1] == NatToString(n / 10);
      DecimalRoundTrip(n / 10);
    }
  }

  /** Distinct numbers render differently. */
  lemma NatToStringInjective(m: nat, n: nat)
    requires NatToString(m) == NatToString(n)
    ensures m == n
  {
    DecimalRoundTrip(m);
    DecimalRoundTrip(n);
  }

  /**
    * When two strings both start with a run of digits followed by a non-digit,
    * equal strings have equal runs.
    */
  lemma {:induction false} DigitRunUnique(a: string, x: string, b: string, y: string)
    requires forall i :: 0 <= i < |a| ==> IsDigit(a[i])
    requires forall i :: 0 <= i < |b| ==> IsDigit(b[i])
    requires |x| > 0 && !IsDigit(x[0]) && |y| > 0 && !IsDigit(y[0])
    requires a + x == b + y
    ensures a == b
  {
    assert forall i :: 0 <= i < |b| ==> IsDigit((a + x)[i]) by {
      forall i | 0 <= i < |b| ensures IsDigit((a + x)[i]) {
        assert (b + y)[i] == b[i];
      }
    }
    assert !IsDigit((a + x)[|a|]);
    assert forall i :: 0 <= i < |a| ==> IsDigit((b + y)[i]) by {
      forall i | 0 <= i < |a| ensures IsDigit((b + y)[i]) {
        assert (a + x)[i] == a[i];
      }
    }
    assert !IsDigit((b + y)[|b|]);
    assert |a| == |b|;
    assert a == (a + x)[..|a|];
    assert b == (b + y)[..|b|];
  }
}
