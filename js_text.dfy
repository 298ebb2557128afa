/** JavaScript values the service works with: strings as sequences of UTF-16
    code units, the string operations the handlers call (`includes`, `trim`,
    a case-insensitive suffix test, `join`), and the Option/Result shapes used
    for values that may be missing and for calls that may throw. */
module JsText {

  /** One UTF-16 code unit; a JavaScript string is a sequence of these. */
  newtype CodeUnit = x: int | 0 <= x < 0x1_0000

  type JsString = seq<CodeUnit>

  datatype Option<+T> = None | Some(value: T)

  /** The outcome of a call that may throw: `Fail` carries the error's `message`. */
  datatype Result<+T> = Ok(value: T) | Fail(message: JsString)

  /** The JavaScript string an ASCII literal of the source denotes: one code
      unit per character. (Every literal the handlers use is ASCII.) */
  function Lit(s: string): JsString
  {
    seq(|s|, i requires 0 <= i < |s| => (s[i] as int % 0x80) as CodeUnit)
  }

  /** The smaller of two naturals (`Math.min`, and the length a `slice` or
      `$limit` keeps). */
  function Min(a: nat, b: nat): nat
  {
    if a <= b then a else b
  }

  // ---------------------------------------------------------------------------
  // String.prototype.includes

  /** `sub` occurs in `s` starting at code unit `i`. */
  ghost predicate OccursAt(s: JsString, sub: JsString, i: int)
  {
    0 <= i && i + |sub| <= |s| && s[i..i + |sub|] == sub
  }

  /** `s.includes(sub)`: a left-to-right scan for `sub`. */
  function Includes(s: JsString, sub: JsString): bool
    decreases |s|
  {
    if |sub| <= |s| && s[..|sub|] == sub then true
    else if s == [] then false
    else Includes(s[1..], sub)
  }

  /** The scan finds `sub` exactly when it occurs somewhere in `s`. */
  lemma {:induction false} IncludesIffOccurs(s: JsString, sub: JsString)
    ensures Includes(s, sub) <==> exists i :: OccursAt(s, sub, i)
    decreases |s|
  {
    if |sub| <= |s| && s[..|sub|] == sub {
      assert OccursAt(s, sub, 0);
    } else if s == [] {
    } else {
      IncludesIffOccurs(s[1..], sub);
      if exists i :: OccursAt(s[1..], sub, i) {
        var i :| OccursAt(s[1..], sub, i);
        assert s[i + 1..i + 1 + |sub|] == s[1..][i..i + |sub|];
        assert OccursAt(s, sub, i + 1);
      }
      if exists i :: OccursAt(s, sub, i) {
        var i :| OccursAt(s, sub, i);
        assert s[1..][i - 1..i - 1 + |sub|] == s[i..i + |sub|];
        assert OccursAt(s[1..], sub, i - 1);
      }
    }
  }

  // ---------------------------------------------------------------------------
  // String.prototype.trim

  /** The code units `trim` removes: the ECMAScript WhiteSpace and
      LineTerminator characters (tab, vertical tab, form feed, space,
      no-break space, byte order mark, the Unicode space separators, line
      feed, carriage return, line and paragraph separators). */
  predicate IsWhiteSpace(u: CodeUnit)
  {
    || u == 0x09 || u == 0x0A || u == 0x0B || u == 0x0C || u == 0x0D
    || u == 0x20 || u == 0xA0 || u == 0x1680
    || (0x2000 <= u <= 0x200A)
    || u == 0x2028 || u == 0x2029 || u == 0x202F || u == 0x205F
    || u == 0x3000 || u == 0xFEFF
  }

  /** Every code unit of `s` is white space (vacuously so for ""). */
  ghost predicate IsBlank(s: JsString)
  {
    forall i :: 0 <= i < |s| ==> IsWhiteSpace(s[i])
  }

  function TrimStart(s: JsString): JsString
  {
    if s != [] && IsWhiteSpace(s[0]) then TrimStart(s[1..]) else s
  }

  function TrimEnd(s: JsString): JsString
  {
    if s != [] && IsWhiteSpace(s[|s| - 1]) then TrimEnd(s[..|s| - 1]) else s
  }

  /** `s.trim()`. */
  function Trim(s: JsString): JsString
  {
    TrimEnd(TrimStart(s))
  }

  lemma {:induction false} TrimStartEmptyIffBlank(s: JsString)
    ensures TrimStart(s) == [] <==> IsBlank(s)
  {
    if s != [] && IsWhiteSpace(s[0]) {
      TrimStartEmptyIffBlank(s[1..]);
      if IsBlank(s[1..]) {
        forall i | 0 <= i < |s| ensures IsWhiteSpace(s[i]) {
          if i > 0 { assert s[i] == s[1..][i - 1]; }
        }
      }
      if IsBlank(s) {
        forall i | 0 <= i < |s| - 1 ensures IsWhiteSpace(s[1..][i]) {
          assert s[1..][i] == s[i + 1];
        }
      }
    } else if s != [] {
      assert !IsWhiteSpace(s[0]);
    }
  }

  lemma {:induction false} TrimEndEmptyIffBlank(s: JsString)
    ensures TrimEnd(s) == [] <==> IsBlank(s)
  {
    if s != [] && IsWhiteSpace(s[|s| - 1]) {
      var t := s[..|s| - 1];
      TrimEndEmptyIffBlank(t);
      if IsBlank(t) {
        forall i | 0 <= i < |s| ensures IsWhiteSpace(s[i]) {
          if i < |s| - 1 { assert s[i] == t[i]; }
        }
      }
      if IsBlank(s) {
        forall i | 0 <= i < |t| ensures IsWhiteSpace(t[i]) {
          assert t[i] == s[i];
        }
      }
    } else if s != [] {
      assert !IsWhiteSpace(s[|s| - 1]);
    }
  }

  /** `s.trim()` is "" exactly when `s` consists of white space only. */
  lemma TrimEmptyIffBlank(s: JsString)
    ensures Trim(s) == [] <==> IsBlank(s)
  {
    TrimStartEmptyIffBlank(s);
    TrimEndEmptyIffBlank(TrimStart(s));
    if TrimStart(s) != [] {
      assert !IsWhiteSpace(TrimStart(s)[0]) by { TrimStartHead(s); }
      assert TrimEnd(TrimStart(s)) != [] by { TrimEndKeepsHead(TrimStart(s)); }
    }
  }

  lemma {:induction false} TrimStartHead(s: JsString)
    requires TrimStart(s) != []
    ensures !IsWhiteSpace(TrimStart(s)[0])
  {
    if s != [] && IsWhiteSpace(s[0]) { TrimStartHead(s[1..]); }
  }

  lemma {:induction false} TrimEndKeepsHead(s: JsString)
    requires s != [] && !IsWhiteSpace(s[0])
    ensures TrimEnd(s) != []
  {
    if IsWhiteSpace(s[|s| - 1]) {
      assert |s| > 1;
      TrimEndKeepsHead(s[..|s| - 1]);
    }
  }

  // ---------------------------------------------------------------------------
  // Case-insensitive suffix test of a regular expression with the `i` flag

  /** The case folding of a regular expression with the `i` flag and without
      `u`, restricted to what matters for an ASCII pattern: an ASCII letter
      matches its other case, and no non-ASCII unit folds onto an ASCII one. */
  function FoldAscii(u: CodeUnit): CodeUnit
  {
    if 0x61 <= u <= 0x7A then u - 0x20 else u
  }

  /** `s` ends with `suffix`, letters compared without regard to ASCII case. */
  predicate EndsWithIgnoringCase(s: JsString, suffix: JsString)
  {
    |suffix| <= |s| &&
    forall k :: 0 <= k < |suffix| ==> FoldAscii(s[|s| - |suffix| + k]) == FoldAscii(suffix[k])
  }

  // ---------------------------------------------------------------------------
  // Array.prototype.join

  /** `parts.join(sep)`. */
  function Join(parts: seq<JsString>, sep: JsString): JsString
  {
    if parts == [] then []
    else if |parts| == 1 then parts[0]
    else parts[0] + sep + Join(parts[1..], sep)
  }

  /** Joining one more part appends the separator and that part. */
  lemma {:induction false} JoinSnoc(parts: seq<JsString>, x: JsString, sep: JsString)
    requires parts != []
    ensures Join(parts + [x], sep) == Join(parts, sep) + sep + x
  {
    if |parts| == 1 {
      assert parts + [x] == [parts[0], x];
    } else {
      assert (parts + [x])[1..] == parts[1..] + [x];
      JoinSnoc(parts[1..], x, sep);
    }
  }
}
