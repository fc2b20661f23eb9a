/** JavaScript strings as sequences of UTF-16 code units, with the few
    `String.prototype` operations the application relies on: `trim`,
    `split` on a one-character separator, and `Array.prototype.join`. */
module JsText {

  /** One UTF-16 code unit, the element type of a JavaScript string. */
  newtype CodeUnit = c: int | 0 <= c < 0x1_0000

  type JsString = seq<CodeUnit>

  const LineFeed: CodeUnit := 10
  const Comma: CodeUnit := 44

  /** The JavaScript string whose code units are those of the ASCII literal `s`. */
  function Lit(s: string): (r: JsString)
    ensures |r| == |s|
  {
    seq(|s|, i requires 0 <= i < |s| => ((s[i] as int) % 0x1_0000) as CodeUnit)
  }

  /** A code unit that no character of `s` stands for does not occur in `Lit(s)`. */
  lemma LitExcludes(s: string, c: CodeUnit)
    requires forall i :: 0 <= i < |s| ==> (s[i] as int) % 0x1_0000 != c as int
    ensures c !in Lit(s)
  {
  }

  /** WhiteSpace and LineTerminator code points of ECMAScript, the set `trim` removes. */
  predicate IsWhiteSpace(c: CodeUnit) {
    || c == 0x09 || c == 0x0A || c == 0x0B || c == 0x0C || c == 0x0D || c == 0x20
    || c == 0xA0 || c == 0x1680 || (0x2000 <= c <= 0x200A) || c == 0x2028 || c == 0x2029
    || c == 0x202F || c == 0x205F || c == 0x3000 || c == 0xFEFF
  }

  predicate AllWhiteSpace(s: JsString) {
    forall i :: 0 <= i < |s| ==> IsWhiteSpace(s[i])
  }

  /** The number of white-space code units `s` starts with. */
  function LeadingWhiteSpace(s: JsString): (k: nat)
    ensures k <= |s| && AllWhiteSpace(s[..k])
    ensures k < |s| ==> !IsWhiteSpace(s[k])
  {
    if |s| > 0 && IsWhiteSpace(s[0]) then
      var k := 1 + LeadingWhiteSpace(s[1..]);
      assert s[..k] == [s[0]] + s[1..][..k - 1];
      k
    else 0
  }

  /** `s.trimStart()`: the suffix of `s` after its leading white space. */
  function TrimStart(s: JsString): (r: JsString)
  {
    s[LeadingWhiteSpace(s)..]
  }

  /** `s.trimEnd()`: the prefix of `s` before its trailing white space. */
  function TrimEnd(s: JsString): (r: JsString)
    ensures |r| <= |s| && r == s[..|r|]
    ensures AllWhiteSpace(s[|r|..])
    ensures |r| > 0 ==> !IsWhiteSpace(r[|r| - 1])
  {
    if |s| > 0 && IsWhiteSpace(s[|s| - 1]) then TrimEnd(s[..|s| - 1]) else s
  }

  /** `s.trim()`. */
  function Trim(s: JsString): (r: JsString)
  {
    TrimEnd(TrimStart(s))
  }

  /** `s.trim()` is empty exactly when `s` consists of white space only. */
  lemma TrimEmpty(s: JsString)
    ensures Trim(s) == [] <==> AllWhiteSpace(s)
  {
  }

  /** `s.split(String.fromCharCode(sep))`: the maximal separator-free pieces of `s`. */
  function Split(s: JsString, sep: CodeUnit): (parts: seq<JsString>)
    ensures |parts| >= 1
    ensures forall k :: 0 <= k < |parts| ==> sep !in parts[k]
    ensures Join(parts, sep) == s
  {
    if |s| == 0 then [[]]
    else
      var rest := Split(s[1..], sep);
      if s[0] == sep then [[]] + rest
      else [[s[0]] + rest[0]] + rest[1..]
  }

  /** `parts.join(String.fromCharCode(sep))`. */
  function Join(parts: seq<JsString>, sep: CodeUnit): JsString
  {
    if |parts| == 0 then []
    else if |parts| == 1 then parts[0]
    else parts[0] + [sep] + Join(parts[1..], sep)
  }

  /** Splitting undoes joining: `Split` is the inverse of `Join` on separator-free pieces. */
  lemma {:induction false} SplitJoin(parts: seq<JsString>, sep: CodeUnit)
    requires |parts| >= 1
    requires forall k :: 0 <= k < |parts| ==> sep !in parts[k]
    ensures Split(Join(parts, sep), sep) == parts
    decreases |parts|, |parts[0]|
  {
    if |parts| == 1 {
      SplitFree(parts[0], sep);
    } else if |parts[0]| == 0 {
      var tail := Join(parts[1..], sep);
      assert Join(parts, sep) == [sep] + tail;
      assert ([sep] + tail)[1..] == tail;
      SplitJoin(parts[1..], sep);
      assert parts == [[]] + parts[1..];
    } else {
      var s := Join(parts, sep);
      var shorter := [parts[0][1..]] + parts[1..];
      assert shorter[1..] == parts[1..];
      assert Join(shorter, sep) == s[1..];
      SplitJoin(shorter, sep);
      assert [parts[0][0]] + parts[0][1..] == parts[0];
      assert parts == [[s[0]] + shorter[0]] + shorter[1..];
    }
  }

  /** A separator-free string splits into itself alone. */
  lemma {:induction false} SplitFree(s: JsString, sep: CodeUnit)
    requires sep !in s
    ensures Split(s, sep) == [s]
  {
    if |s| > 0 {
      SplitFree(s[1..], sep);
      assert [s[0]] + s[1..] == s;
    }
  }

  /** Joining pieces and then appending one more piece with a separator is joining them all. */
  lemma {:induction false} JoinSnoc(parts: seq<JsString>, last: JsString, sep: CodeUnit)
    requires |parts| >= 1
    ensures Join(parts + [last], sep) == Join(parts, sep) + [sep] + last
    decreases |parts|
  {
    if |parts| == 1 {
      assert (parts + [last])[1..] == [last];
    } else {
      assert (parts + [last])[1..] == parts[1..] + [last];
      JoinSnoc(parts[1..], last, sep);
    }
  }

  /** A separator-free prefix followed by the separator is the first piece. */
  lemma {:induction false} SplitPrefix(a: JsString, b: JsString, sep: CodeUnit)
    requires sep !in a
    ensures Split(a + [sep] + b, sep) == [a] + Split(b, sep)
    decreases |a|
  {
    var s := a + [sep] + b;
    if |a| == 0 {
      assert s == [sep] + b;
      assert s[1..] == b;
    } else {
      assert s[1..] == a[1..] + [sep] + b;
      SplitPrefix(a[1..], b, sep);
      assert [a[0]] + a[1..] == a;
    }
  }

  /** Joining two non-empty lists of pieces is joining each and putting a separator between. */
  lemma {:induction false} JoinAppend(a: seq<JsString>, b: seq<JsString>, sep: CodeUnit)
    requires |a| >= 1 && |b| >= 1
    ensures Join(a + b, sep) == Join(a, sep) + [sep] + Join(b, sep)
    decreases |a|
  {
    if |a| == 1 {
      assert (a + b)[1..] == b;
    } else {
      assert (a + b)[1..] == a[1..] + b;
      JoinAppend(a[1..], b, sep);
    }
  }

  /** Every code unit of every piece occurs in the joined string. */
  lemma {:induction false} JoinContains(parts: seq<JsString>, sep: CodeUnit, k: nat, i: nat)
    requires k < |parts| && i < |parts[k]|
    ensures parts[k][i] in Join(parts, sep)
    decreases |parts|
  {
    if |parts| > 1 {
      if k == 0 {
        assert Join(parts, sep)[i] == parts[0][i];
      } else {
        JoinContains(parts[1..], sep, k - 1, i);
        var tail := Join(parts[1..], sep);
        var j :| 0 <= j < |tail| && tail[j] == parts[k][i];
        assert Join(parts, sep)[|parts[0]| + 1 + j] == tail[j];
      }
    }
  }
}
