/** JavaScript values as the route handlers see them (fields of a parsed JSON
    request body, path and query parameters) and the few string operations
    the handlers apply to them: truthiness, `String.prototype.trim` and
    `String.prototype.split`. */
module JsValues {

  datatype Option<+T> = None | Some(value: T)

  /** A JSON value, plus `Undefined` for a field that is absent from the
      request. Numbers are integers; the contents of an object are never
      inspected by the handlers, so `Obj` carries none. */
  datatype JsValue =
    | Undefined
    | Null
    | Bool(b: bool)
    | Num(n: int)
    | Str(s: string)
    | Arr(items: seq<JsValue>)
    | Obj

  /** JavaScript truthiness: `if (v)` takes the branch exactly when `Truthy(v)`. */
  predicate Truthy(v: JsValue) {
    match v
    case Undefined => false
    case Null => false
    case Bool(b) => b
    case Num(n) => n != 0
    case Str(s) => s != ""
    case Arr(_) => true
    case Obj => true
  }

  /** The two coercions of the JavaScript runtime the handlers rely on, kept
      abstract: `toNumber(v)` is `Number(v)`, with `None` for NaN, and
      `toDate(v)` is the time value of `new Date(v)`, with `None` for an
      invalid date. */
  datatype Runtime = Runtime(toNumber: JsValue -> Option<int>, toDate: JsValue -> Option<int>)

  /** The characters `trim` removes: the WhiteSpace and LineTerminator code
      points of ECMA-262. */
  predicate IsJsWhitespace(c: char) {
    || c == '\t' || c == '\n' || c == '\U{000B}' || c == '\U{000C}' || c == '\r'
    || c == ' ' || c == '\U{00A0}' || c == '\U{1680}'
    || ('\U{2000}' <= c <= '\U{200A}')
    || c == '\U{2028}' || c == '\U{2029}' || c == '\U{202F}' || c == '\U{205F}'
    || c == '\U{3000}' || c == '\U{FEFF}'
  }

  predicate AllWhitespace(s: string) {
    forall i :: 0 <= i < |s| ==> IsJsWhitespace(s[i])
  }

  /** Drops the leading whitespace: what is left is a suffix of `s` that does
      not start with whitespace, and everything dropped was whitespace. */
  function TrimStart(s: string): (r: string)
    ensures |r| <= |s|
    ensures r == [] || !IsJsWhitespace(r[0])
  {
    if s != [] && IsJsWhitespace(s[0]) then TrimStart(s[1..]) else s
  }

  lemma {:induction false} TrimStartDropsWhitespace(s: string)
    ensures TrimStart(s) == s[|s| - |TrimStart(s)|..]
    ensures AllWhitespace(s[..|s| - |TrimStart(s)|])
  {
    if s != [] && IsJsWhitespace(s[0]) {
      TrimStartDropsWhitespace(s[1..]);
      var k := |s| - |TrimStart(s)|;
      assert s[..k] == [s[0]] + s[1..][..k - 1];
    }
  }

  /** Drops the trailing whitespace: what is left is a prefix of `s` that does
      not end with whitespace, and everything dropped was whitespace. */
  function TrimEnd(s: string): (r: string)
    ensures |r| <= |s|
    ensures r == [] || !IsJsWhitespace(r[|r| - 1])
  {
    if s != [] && IsJsWhitespace(s[|s| - 1]) then TrimEnd(s[..|s| - 1]) else s
  }

  lemma {:induction false} TrimEndDropsWhitespace(s: string)
    ensures TrimEnd(s) == s[..|TrimEnd(s)|]
    ensures AllWhitespace(s[|TrimEnd(s)|..])
  {
    if s != [] && IsJsWhitespace(s[|s| - 1]) {
      TrimEndDropsWhitespace(s[..|s| - 1]);
      var k := |TrimEnd(s)|;
      assert s[k..] == s[..|s| - 1][k..] + [s[|s| - 1]];
    }
  }

  /** `s.trim()`. */
  function Trim(s: string): string {
    TrimEnd(TrimStart(s))
  }

  /** `s.trim() === ''` exactly when every character of `s` is whitespace. */
  lemma TrimIsEmptyIffBlank(s: string)
    ensures Trim(s) == [] <==> AllWhitespace(s)
  {
    var t := TrimStart(s);
    TrimStartDropsWhitespace(s);
    TrimEndDropsWhitespace(t);
    if Trim(s) == [] {
      assert AllWhitespace(t);
      assert s[..|s| - |t|] == s;
    } else {
      var r := Trim(s);
      assert r == t[..|r|];
      assert !IsJsWhitespace(t[0]);
      assert t[0] == s[|s| - |t|];
    }
  }

  /** `s.trim()` is the slice of `s` left between a run of leading and a run
      of trailing whitespace (that the slice has no whitespace at either end
      is `TrimIdempotent`). */
  lemma TrimSlice(s: string)
    ensures exists i, j :: 0 <= i <= j <= |s| && Trim(s) == s[i..j] && AllWhitespace(s[..i]) && AllWhitespace(s[j..])
  {
    var t := TrimStart(s);
    var r := TrimEnd(t);
    TrimStartDropsWhitespace(s);
    TrimEndDropsWhitespace(t);
    PrefixOfSuffix(s, t, r);
    var i := |s| - |t|;
    assert 0 <= i <= i + |r| <= |s| && r == s[i..i + |r|] && AllWhitespace(s[..i]) && AllWhitespace(s[i + |r|..]);
  }

  /** A prefix `r` of a suffix `t` of `s` is a slice of `s`, and so is what
      follows `r` in `t`. */
  lemma PrefixOfSuffix(s: string, t: string, r: string)
    requires |r| <= |t| <= |s| && t == s[|s| - |t|..] && r == t[..|r|]
    requires AllWhitespace(t[|r|..])
    ensures r == s[|s| - |t|..|s| - |t| + |r|]
    ensures AllWhitespace(s[|s| - |t| + |r|..])
  {
    assert t[|r|..] == s[|s| - |t| + |r|..];
  }

  /** A trimmed string has no whitespace at either end, and trimming it again
      changes nothing. */
  lemma TrimIdempotent(s: string)
    ensures var r := Trim(s); r == [] || (!IsJsWhitespace(r[0]) && !IsJsWhitespace(r[|r| - 1]))
    ensures Trim(Trim(s)) == Trim(s)
  {
    var t := TrimStart(s);
    var r := TrimEnd(t);
    TrimEndDropsWhitespace(t);
    if r != [] {
      assert r[0] == t[0];
    }
    assert TrimStart(r) == r;
    assert TrimEnd(r) == r;
  }

  /** `s.split(sep)`: the pieces of `s` between occurrences of `sep`, in order.
      There is always at least one piece (the empty string splits into `[""]`)
      and no piece contains the separator. */
  function Split(s: string, sep: char): (r: seq<string>)
    ensures |r| >= 1
    ensures forall i :: 0 <= i < |r| ==> sep !in r[i]
  {
    if s == [] then [""]
    else
      var rest := Split(s[1..], sep);
      if s[0] == sep then [""] + rest else [[s[0]] + rest[0]] + rest[1..]
  }

  /** `ps.join(sep)`. */
  function Join(ps: seq<string>, sep: char): string
    requires |ps| >= 1
  {
    if |ps| == 1 then ps[0] else ps[0] + [sep] + Join(ps[1..], sep)
  }

  /** Joining the pieces with the separator gives back the original string. */
  lemma {:induction false} JoinSplit(s: string, sep: char)
    ensures Join(Split(s, sep), sep) == s
  {
    if s != [] {
      JoinSplit(s[1..], sep);
      var rest := Split(s[1..], sep);
      if s[0] == sep {
        assert s == [sep] + s[1..];
      } else {
        var r := Split(s, sep);
        assert r[0] == [s[0]] + rest[0] && r[1..] == rest[1..];
        if |rest| == 1 {
          assert s == [s[0]] + rest[0];
        } else {
          assert Join(rest, sep) == rest[0] + [sep] + Join(rest[1..], sep);
          assert s == [s[0]] + s[1..];
        }
      }
    }
  }

  lemma {:induction false} SplitPiece(p: string, t: string, sep: char)
    requires sep !in p
    ensures Split(p + [sep] + t, sep) == [p] + Split(t, sep)
  {
    if p != [] {
      var w := p + [sep] + t;
      assert w[0] == p[0] && p[0] != sep;
      assert w[1..] == p[1..] + [sep] + t;
      SplitPiece(p[1..], t, sep);
      assert p == [p[0]] + p[1..];
    } else {
      assert (p + [sep] + t)[1..] == t;
    }
  }

  lemma {:induction false} SplitNoSeparator(p: string, sep: char)
    requires sep !in p
    ensures Split(p, sep) == [p]
  {
    if p != [] {
      SplitNoSeparator(p[1..], sep);
      assert p == [p[0]] + p[1..];
    }
  }

  /** Splitting a join of separator-free pieces gives back the pieces. */
  lemma {:induction false} SplitJoin(ps: seq<string>, sep: char)
    requires |ps| >= 1
    requires forall i :: 0 <= i < |ps| ==> sep !in ps[i]
    ensures Split(Join(ps, sep), sep) == ps
  {
    if |ps| == 1 {
      SplitNoSeparator(ps[0], sep);
    } else {
      SplitJoin(ps[1..], sep);
      SplitPiece(ps[0], Join(ps[1..], sep), sep);
      assert ps == [ps[0]] + ps[1..];
    }
  }
}
