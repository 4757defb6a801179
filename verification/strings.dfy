/** String helpers with the meaning of the Rust standard-library operations
    the compiler relies on: `join`, `split`, `trim`, `trim_matches`,
    `strip_prefix`/`strip_suffix`, `repeat` and decimal formatting of
    unsigned integers. */
module Strings {
  import opened Wrappers

  predicate StartsWith(s: string, prefix: string)
  {
    |prefix| <= |s| && s[..|prefix|] == prefix
  }

  predicate EndsWith(s: string, suffix: string)
  {
    |suffix| <= |s| && s[|s| - |suffix|..] == suffix
  }

  /** `parts.join(sep)`: the parts in order, separated by `sep`. */
  function Join(parts: seq<string>, sep: string): string
  {
    if |parts| == 0 then ""
    else if |parts| == 1 then parts[0]
    else Join(parts[..|parts| - 1], sep) + sep + parts[|parts| - 1]
  }

  lemma JoinSnoc(parts: seq<string>, x: string, sep: string)
    requires |parts| > 0
    ensures Join(parts + [x], sep) == Join(parts, sep) + sep + x
  {
    assert (parts + [x])[..|parts|] == parts;
  }

  lemma JoinEndsWithLast(parts: seq<string>, sep: string)
    requires |parts| > 0
    ensures EndsWith(Join(parts, sep), parts[|parts| - 1])
  {
  }

  /** `s.split(c)`: the maximal runs between occurrences of `c`. The empty
      string splits into one empty part. */
  function Split(s: string, c: char): (parts: seq<string>)
    ensures |parts| >= 1
    decreases |s|
  {
    if |s| == 0 then [""]
    else
      var init := Split(s[..|s| - 1], c);
      var x := s[|s| - 1];
      if x == c then init + [""]
      else init[..|init| - 1] + [init[|init| - 1] + [x]]
  }

  /** Splitting on `c` and joining with `c` gives back the input. */
  lemma {:induction false} SplitJoin(s: string, c: char)
    ensures Join(Split(s, c), [c]) == s
    decreases |s|
  {
    if |s| > 0 {
      var pre := s[..|s| - 1];
      var x := s[|s| - 1];
      var init := Split(pre, c);
      SplitJoin(pre, c);
      assert s == pre + [x];
      if x == c {
        assert Split(s, c) == init + [""];
        JoinSnoc(init, "", [c]);
      } else {
        var front := init[..|init| - 1];
        var last := init[|init| - 1];
        assert init == front + [last];
        assert Split(s, c) == front + [last + [x]];
        if |front| == 0 {
          SingleExtend(last, x, c);
        } else {
          JoinExtend(front, last, x, c);
        }
      }
    }
  }

  lemma SingleExtend(last: string, x: char, c: char)
    ensures Join([last + [x]], [c]) == Join([last], [c]) + [x]
  {
  }

  lemma JoinExtend(front: seq<string>, last: string, x: char, c: char)
    requires |front| > 0
    ensures Join(front + [last + [x]], [c]) == Join(front + [last], [c]) + [x]
  {
    JoinSnoc(front, last + [x], [c]);
    JoinSnoc(front, last, [c]);
  }

  /** Appending text free of `c` extends the last part only. */
  lemma {:induction false} SplitAppendFree(s: string, t: string, c: char)
    requires c !in t
    ensures Split(s + t, c) == Split(s, c)[..|Split(s, c)| - 1] + [Split(s, c)[|Split(s, c)| - 1] + t]
    decreases |t|
  {
    var p := Split(s, c);
    var front := p[..|p| - 1];
    var last := p[|p| - 1];
    if |t| == 0 {
      assert s + t == s;
      assert p == front + [last];
      assert last + t == last;
    } else {
      var t0 := t[..|t| - 1];
      var x := t[|t| - 1];
      assert c !in t0 && x != c by {
        assert t == t0 + [x];
      }
      SplitAppendFree(s, t0, c);
      assert s + t == (s + t0) + [x];
      SplitAppendChar(s + t0, x, c);
      assert (last + t0) + [x] == last + t;
    }
  }

  lemma SplitAppendChar(s: string, x: char, c: char)
    requires x != c
    ensures Split(s + [x], c) == Split(s, c)[..|Split(s, c)| - 1] + [Split(s, c)[|Split(s, c)| - 1] + [x]]
  {
    assert (s + [x])[..|s|] == s;
  }

  /** Appending the separator opens a new, empty part. */
  lemma SplitAppendSep(s: string, c: char)
    ensures Split(s + [c], c) == Split(s, c) + [""]
  {
    assert (s + [c])[..|s|] == s;
  }

  /** Joining a concatenation: the two joins meet at one separator. */
  lemma {:induction false} JoinConcat(xs: seq<string>, ys: seq<string>, sep: string)
    requires |xs| > 0 && |ys| > 0
    ensures Join(xs + ys, sep) == Join(xs, sep) + sep + Join(ys, sep)
    decreases |ys|
  {
    var last := ys[|ys| - 1];
    var init := ys[..|ys| - 1];
    assert ys == init + [last];
    if |ys| == 1 {
      JoinSnoc(xs, last, sep);
    } else {
      JoinConcat(xs, init, sep);
      var jx, ji := Join(xs, sep), Join(init, sep);
      assert Join(xs + ys, sep) == jx + sep + ji + sep + last by {
        assert xs + ys == (xs + init) + [last];
        JoinSnoc(xs + init, last, sep);
      }
      assert Join(ys, sep) == ji + sep + last by {
        JoinSnoc(init, last, sep);
      }
      assert jx + sep + ji + sep + last == jx + sep + (ji + sep + last);
    }
  }

  /** Joining parts free of `c` with `c` and splitting on `c` gives back the
      parts. */
  lemma {:induction false} JoinSplit(parts: seq<string>, c: char)
    requires |parts| >= 1
    requires forall i :: 0 <= i < |parts| ==> c !in parts[i]
    ensures Split(Join(parts, [c]), c) == parts
    decreases |parts|
  {
    var last := parts[|parts| - 1];
    if |parts| == 1 {
      SplitAppendFree("", last, c);
      assert "" + last == last;
    } else {
      var front := parts[..|parts| - 1];
      JoinSplit(front, c);
      JoinSplitStep(front, last, c);
      assert parts == front + [last];
    }
  }

  /** One more part free of `c` after parts that split back correctly. */
  lemma JoinSplitStep(front: seq<string>, last: string, c: char)
    requires |front| >= 1 && c !in last
    requires Split(Join(front, [c]), c) == front
    ensures Split(Join(front + [last], [c]), c) == front + [last]
  {
    var j := Join(front, [c]);
    assert Join(front + [last], [c]) == (j + [c]) + last by {
      JoinSnoc(front, last, [c]);
    }
    SplitAppendSep(j, c);
    var sp := Split(j + [c], c);
    assert sp == front + [""];
    SplitAppendFree(j + [c], last, c);
    assert sp[..|sp| - 1] == front;
    assert sp[|sp| - 1] + last == last;
  }

  /** `" ".repeat(n)` generalised to any string. */
  function Repeat(s: string, n: nat): (r: string)
    ensures |r| == n * |s|
  {
    if n == 0 then "" else Repeat(s, n - 1) + s
  }

  /** Each part followed by the separator, all run together. */
  function Terminated(parts: seq<string>, sep: string): string
  {
    if |parts| == 0 then "" else parts[0] + sep + Terminated(parts[1..], sep)
  }

  lemma JoinTwo(a: string, b: string, sep: string)
    ensures Join([a, b], sep) == a + sep + b
  {
    assert [a, b][..1] == [a];
  }

  /** Terminating every part is joining them with one empty part added. */
  lemma {:induction false} TerminatedJoins(parts: seq<string>, sep: string)
    ensures Terminated(parts, sep) == Join(parts + [""], sep)
  {
    if |parts| > 0 {
      TerminatedJoins(parts[1..], sep);
      assert parts + [""] == [parts[0]] + (parts[1..] + [""]);
      JoinConcat([parts[0]], parts[1..] + [""], sep);
    }
  }

  /** One step of `Terminated`. */
  lemma TerminatedStep(x: string, rest: seq<string>, sep: string)
    ensures Terminated([x] + rest, sep) == x + sep + Terminated(rest, sep)
  {
    assert ([x] + rest)[1..] == rest;
  }

  /** A line-feed-free text with one line feed added holds exactly one. */
  lemma OneLine(body: string)
    requires '\n' !in body
    ensures multiset(body + "\n")['\n'] == 1
  {
    assert multiset(body)['\n'] == 0;
  }

  lemma RepeatFree(s: string, n: nat, c: char)
    requires c !in s
    ensures c !in Repeat(s, n)
  {
  }

  /** `char::is_whitespace`: the Unicode White_Space property. */
  predicate IsWhitespace(c: char)
  {
    var n := c as int;
    (9 <= n <= 13) || n == 32 || n == 0x85 || n == 0xA0 || n == 0x1680
    || (0x2000 <= n <= 0x200A) || n == 0x2028 || n == 0x2029 || n == 0x202F
    || n == 0x205F || n == 0x3000
  }

  /** Drop the longest prefix whose characters all satisfy `drop`. */
  function TrimStartBy(s: string, drop: char -> bool): (r: string)
    ensures |r| <= |s| && r == s[|s| - |r|..]
    ensures forall i :: 0 <= i < |s| - |r| ==> drop(s[i])
    ensures |r| > 0 ==> !drop(r[0])
  {
    if |s| > 0 && drop(s[0]) then
      var r := TrimStartBy(s[1..], drop);
      TrimStartStep(s, drop, r);
      r
    else s
  }

  /** Dropping the first character before trimming the rest. */
  lemma TrimStartStep(s: string, drop: char -> bool, r: string)
    requires |s| > 0 && drop(s[0])
    requires |r| <= |s| - 1 && r == s[1..][|s| - 1 - |r|..]
    requires forall i :: 0 <= i < |s| - 1 - |r| ==> drop(s[1..][i])
    ensures r == s[|s| - |r|..]
    ensures forall i :: 0 <= i < |s| - |r| ==> drop(s[i])
  {
    forall i | 0 <= i < |s| - |r| ensures drop(s[i]) {
      if i > 0 {
        assert s[i] == s[1..][i - 1];
      }
    }
  }

  /** Drop the longest suffix whose characters all satisfy `drop`. */
  function TrimEndBy(s: string, drop: char -> bool): (r: string)
    ensures |r| <= |s| && r == s[..|r|]
    ensures forall i :: |r| <= i < |s| ==> drop(s[i])
    ensures |r| > 0 ==> !drop(r[|r| - 1])
  {
    if |s| > 0 && drop(s[|s| - 1]) then TrimEndBy(s[..|s| - 1], drop) else s
  }

  /** `str::trim`. */
  function Trim(s: string): string
  {
    TrimEndBy(TrimStartBy(s, IsWhitespace), IsWhitespace)
  }

  /** `str::trim_matches(c)` for a single character. */
  function TrimMatches(s: string, c: char): string
  {
    TrimEndBy(TrimStartBy(s, x => x == c), x => x == c)
  }

  /** `str::strip_prefix`. */
  function StripPrefix(s: string, prefix: string): (r: Option<string>)
    ensures r.Some? <==> StartsWith(s, prefix)
    ensures r.Some? ==> prefix + r.value == s
  {
    if StartsWith(s, prefix) then Some(s[|prefix|..]) else None
  }

  /** `str::strip_suffix`. */
  function StripSuffix(s: string, suffix: string): (r: Option<string>)
    ensures r.Some? <==> EndsWith(s, suffix)
    ensures r.Some? ==> r.value + suffix == s
  {
    if EndsWith(s, suffix) then Some(s[..|s| - |suffix|]) else None
  }

  function Pow10(k: nat): (r: nat)
    ensures r >= 1
  {
    if k == 0 then 1 else 10 * Pow10(k - 1)
  }

  predicate IsDigit(c: char)
  {
    '0' as int <= c as int <= '9' as int
  }

  function DigitChar(d: nat): (c: char)
    requires d < 10
    ensures IsDigit(c) && c as int - '0' as int == d
  {
    (('0' as int) + d) as char
  }

  /** Decimal rendering of an unsigned integer (`format!("{n}")`). */
  function NatToString(n: nat): (r: string)
    ensures |r| >= 1
    ensures forall i :: 0 <= i < |r| ==> IsDigit(r[i])
  {
    if n < 10 then [DigitChar(n)] else NatToString(n / 10) + [DigitChar(n % 10)]
  }

  /** The value of a string of decimal digits: the inverse of `NatToString`. */
  function DecimalValue(s: string): nat
    requires forall i :: 0 <= i < |s| ==> IsDigit(s[i])
  {
    if |s| == 0 then 0
    else
      assert IsDigit(s[|s| - 1]);
      10 * DecimalValue(s[..|s| - 1]) + (s[|s| - 1] as int - '0' as int)
  }

  lemma {:induction false} NatToStringRoundTrip(n: nat)
    ensures DecimalValue(NatToString(n)) == n
  {
    if n >= 10 {
      var r := NatToString(n);
      NatToStringRoundTrip(n / 10);
      assert r[..|r| - 1] == NatToString(n / 10);
    }
  }

  /** Different numbers render differently. */
  lemma NatToStringInjective(m: nat, n: nat)
    requires NatToString(m) == NatToString(n)
    ensures m == n
  {
    NatToStringRoundTrip(m);
    NatToStringRoundTrip(n);
  }

  /** A number of at least `10^k` needs more than `k` digits. */
  lemma {:induction false} NatToStringLength(n: nat, k: nat)
    requires n >= Pow10(k)
    ensures |NatToString(n)| > k
  {
    if k > 0 {
      assert n >= 10 * Pow10(k - 1);
      assert n / 10 >= Pow10(k - 1);
      NatToStringLength(n / 10, k - 1);
    }
  }

  /** How `{:?}` writes one character of a string: the null, tab, line
      feed and carriage return characters, the backslash and the double
      quote are escaped with a backslash; other characters are kept. */
  function EscapeChar(c: char): (r: string)
    ensures 1 <= |r| <= 2
    ensures |r| == 1 <==> r == [c]
    ensures |r| == 2 ==> r[0] == '\\'
    ensures '\n' !in r
    ensures |r| == 1 ==> c != '"' && c != '\\'
  {
    match c
    case '\0' => "\\0"
    case '\t' => "\\t"
    case '\n' => "\\n"
    case '\r' => "\\r"
    case '\\' => "\\\\"
    case '"' => "\\\""
    case _ => [c]
  }

  /** The character a backslash escape stands for. */
  function UnescapeChar(e: char): char
  {
    match e
    case '0' => '\0'
    case 't' => '\t'
    case 'n' => '\n'
    case 'r' => '\r'
    case _ => e
  }

  function Escape(s: string): (r: string)
    ensures |r| >= |s|
  {
    if |s| == 0 then "" else EscapeChar(s[0]) + Escape(s[1..])
  }

  /** Undo `Escape`: a backslash and the character after it stand for one
      character. */
  function Unescape(t: string): string
  {
    if |t| == 0 then ""
    else if t[0] == '\\' && |t| >= 2 then [UnescapeChar(t[1])] + Unescape(t[2..])
    else [t[0]] + Unescape(t[1..])
  }

  /** `format!("{:?}", s)` for a string: the escaped text between double
      quotes. */
  function DebugQuote(s: string): (r: string)
    ensures |r| >= 2 && r[0] == '"' && r[|r| - 1] == '"'
  {
    "\"" + Escape(s) + "\""
  }

  /** The text between the quotes of a quoted string, unescaped. */
  function Unquote(q: string): string
  {
    if |q| >= 2 then Unescape(q[1..|q| - 1]) else ""
  }

  lemma UnescapeEscapedChar(c: char, rest: string)
    ensures Unescape(EscapeChar(c) + rest) == [c] + Unescape(rest)
  {
    var t := EscapeChar(c) + rest;
    if |EscapeChar(c)| == 2 {
      assert t[2..] == rest;
    } else {
      assert t[1..] == rest;
    }
  }

  /** Escaping loses nothing: unescaping gives the original back. */
  lemma {:induction false} UnescapeEscape(s: string)
    ensures Unescape(Escape(s)) == s
  {
    if |s| > 0 {
      UnescapeEscapedChar(s[0], Escape(s[1..]));
      UnescapeEscape(s[1..]);
    }
  }

  /** Quoting a string for display loses nothing. */
  lemma DebugQuoteRoundTrip(s: string)
    ensures Unquote(DebugQuote(s)) == s
  {
    var q := DebugQuote(s);
    assert q[1..|q| - 1] == Escape(s);
    UnescapeEscape(s);
  }

  /** An escaped string has no line feed in it. */
  lemma {:induction false} EscapeHasNoLineFeed(s: string)
    ensures '\n' !in Escape(s)
  {
    if |s| > 0 {
      EscapeHasNoLineFeed(s[1..]);
      assert '\n' !in EscapeChar(s[0]);
    }
  }
}
