/**
 * The transform sync-env.js applies to the text of `.env` to produce
 * `.env.example`: split on '\n', keep blank and comment lines, reduce every
 * other line to its key followed by '=', and join with '\n'. Reading and
 * writing the files is not modelled.
 */
module SyncEnv {

  /** What `String.prototype.trim` removes: ECMAScript WhiteSpace and LineTerminator characters. */
  const Whitespace: set<char> := {
    '\t', '\n', '\U{B}', '\U{C}', '\r', ' ', '\U{A0}', '\U{1680}',
    '\U{2000}', '\U{2001}', '\U{2002}', '\U{2003}', '\U{2004}', '\U{2005}',
    '\U{2006}', '\U{2007}', '\U{2008}', '\U{2009}', '\U{200A}',
    '\U{2028}', '\U{2029}', '\U{202F}', '\U{205F}', '\U{3000}', '\U{FEFF}'
  }

  predicate IsWhitespace(c: char) {
    c in Whitespace
  }

  /** `s.split('\n')`: the pieces between newlines; "" gives [""], a trailing newline an empty last piece. */
  function Split(s: string): (lines: seq<string>)
    ensures |lines| >= 1
    ensures forall i :: 0 <= i < |lines| ==> '\n' !in lines[i]
  {
    if |s| == 0 then [""]
    else
      var rest := Split(s[1..]);
      if s[0] == '\n' then [""] + rest
      else [[s[0]] + rest[0]] + rest[1..]
  }

  /** `lines.join('\n')` */
  function Join(lines: seq<string>): string {
    if |lines| == 0 then ""
    else if |lines| == 1 then lines[0]
    else lines[0] + "\n" + Join(lines[1..])
  }

  function TrimStart(s: string): (t: string)
    ensures |t| <= |s|
  {
    if |s| > 0 && IsWhitespace(s[0]) then TrimStart(s[1..]) else s
  }

  /** `TrimStart` removes a run of whitespace from the front, and all of it. */
  lemma {:induction false} TrimStartRemovesLeadingWhitespace(s: string)
    ensures var t := TrimStart(s);
      && t == s[|s| - |t|..]
      && (t == "" || !IsWhitespace(t[0]))
      && forall k :: 0 <= k < |s| - |t| ==> IsWhitespace(s[k])
  {
    if |s| > 0 && IsWhitespace(s[0]) {
      TrimStartRemovesLeadingWhitespace(s[1..]);
    }
  }

  function TrimEnd(s: string): (t: string)
    ensures |t| <= |s|
  {
    if |s| > 0 && IsWhitespace(s[|s| - 1]) then TrimEnd(s[..|s| - 1]) else s
  }

  /** `TrimEnd` removes a run of whitespace from the back, and all of it. */
  lemma {:induction false} TrimEndRemovesTrailingWhitespace(s: string)
    ensures var t := TrimEnd(s);
      && t == s[..|t|]
      && (t == "" || !IsWhitespace(t[|t| - 1]))
      && forall k :: |t| <= k < |s| ==> IsWhitespace(s[k])
  {
    if |s| > 0 && IsWhitespace(s[|s| - 1]) {
      TrimEndRemovesTrailingWhitespace(s[..|s| - 1]);
    }
  }

  /** `s.trim()` */
  function Trim(s: string): string {
    TrimEnd(TrimStart(s))
  }

  /** `line.trim() === '' || line.trim().startsWith('#')` */
  predicate KeptVerbatim(line: string) {
    var t := Trim(line);
    t == "" || t[0] == '#'
  }

  /** `line.split('=')[0]`: the line up to its first '=', or all of it when it has none. */
  function KeyOf(line: string): (key: string)
    ensures |key| <= |line| && key == line[..|key|] && '=' !in key
    ensures |key| < |line| ==> line[|key|] == '='
  {
    if |line| == 0 || line[0] == '=' then "" else [line[0]] + KeyOf(line[1..])
  }

  /** What becomes of one line of `.env`. */
  function ExampleLine(line: string): string {
    if KeptVerbatim(line) then line else KeyOf(line) + "="
  }

  /** Every line transformed on its own. */
  function ExampleLines(lines: seq<string>): seq<string> {
    seq(|lines|, i requires 0 <= i < |lines| => ExampleLine(lines[i]))
  }

  /** The content written to `.env.example` for the content of `.env`. */
  function ExampleContent(env: string): string {
    Join(ExampleLines(Split(env)))
  }

  /*
   * Splitting and joining.
   */

  lemma {:induction false} JoinSplit(s: string)
    ensures Join(Split(s)) == s
  {
    if |s| > 0 {
      var rest := Split(s[1..]);
      JoinSplit(s[1..]);
      if s[0] == '\n' {
        assert ([""] + rest)[1..] == rest;
      } else if |rest| == 1 {
        assert Join(Split(s)) == [s[0]] + rest[0];
      } else {
        var lines := Split(s);
        assert lines[1..] == rest[1..];
        assert Join(rest) == rest[0] + "\n" + Join(rest[1..]);
      }
    }
  }

  /** Splitting text whose first line is `a` gives `a` and then the lines of the rest. */
  lemma {:induction false} SplitAfterLine(a: string, rest: string)
    requires '\n' !in a
    ensures Split(a + "\n" + rest) == [a] + Split(rest)
  {
    if |a| > 0 {
      SplitAfterLine(a[1..], rest);
      assert (a + "\n" + rest)[1..] == a[1..] + "\n" + rest;
      assert [a[0]] + a[1..] == a;
    } else {
      assert a + "\n" + rest == "\n" + rest;
      assert ("\n" + rest)[1..] == rest;
    }
  }

  lemma {:induction false} SplitLine(a: string)
    requires '\n' !in a
    ensures Split(a) == [a]
  {
    if |a| > 0 {
      SplitLine(a[1..]);
      assert [a[0]] + a[1..] == a;
    }
  }

  /** Lines without newlines survive a join followed by a split. */
  lemma {:induction false} SplitJoin(lines: seq<string>)
    requires |lines| >= 1
    requires forall i :: 0 <= i < |lines| ==> '\n' !in lines[i]
    ensures Split(Join(lines)) == lines
  {
    if |lines| == 1 {
      SplitLine(lines[0]);
    } else {
      SplitJoin(lines[1..]);
      SplitAfterLine(lines[0], Join(lines[1..]));
    }
  }

  /*
   * One line.
   */

  /**
   * A line is kept verbatim exactly when it is all whitespace, or when its
   * first character other than whitespace is '#'.
   */
  lemma KeptVerbatimIff(line: string)
    ensures KeptVerbatim(line) <==>
      (forall k :: 0 <= k < |line| ==> IsWhitespace(line[k])) ||
      (exists j :: 0 <= j < |line| && line[j] == '#' && forall k :: 0 <= k < j ==> IsWhitespace(line[k]))
  {
    var t := TrimStart(line);
    var j := |line| - |t|;
    TrimStartRemovesLeadingWhitespace(line);
    TrimOfTrimmedStart(line);
    if t != "" {
      assert line[j] == t[0];
      assert !IsWhitespace(line[j]);
    }
    if exists j' :: 0 <= j' < |line| && line[j'] == '#' && forall k :: 0 <= k < j' ==> IsWhitespace(line[k]) {
      var j' :| 0 <= j' < |line| && line[j'] == '#' && forall k :: 0 <= k < j' ==> IsWhitespace(line[k]);
      assert !IsWhitespace(line[j']);
    }
  }

  /** A line that is all whitespace, or whose first character other than whitespace is '#', is copied as it is. */
  lemma BlankOrCommentLineKept(line: string)
    requires (forall k :: 0 <= k < |line| ==> IsWhitespace(line[k])) ||
      (exists j :: 0 <= j < |line| && line[j] == '#' && forall k :: 0 <= k < j ==> IsWhitespace(line[k]))
    ensures ExampleLine(line) == line
  {
    KeptVerbatimIff(line);
  }

  /** Trim is empty exactly when TrimStart is, and otherwise starts with the same character. */
  lemma TrimOfTrimmedStart(s: string)
    ensures Trim(s) == "" <==> TrimStart(s) == ""
    ensures Trim(s) != "" ==> Trim(s)[0] == TrimStart(s)[0]
  {
    var t := TrimStart(s);
    TrimStartRemovesLeadingWhitespace(s);
    if t != "" {
      var u := TrimEnd(t);
      TrimEndRemovesTrailingWhitespace(t);
      assert !IsWhitespace(t[0]);
      assert |u| > 0 ==> u[0] == t[0];
    }
  }

  /** Leading whitespace of `a + b` comes from `a` first, then from `b`. */
  lemma {:induction false} TrimStartAppend(a: string, b: string)
    ensures TrimStart(a + b) == if TrimStart(a) == "" then TrimStart(b) else TrimStart(a) + b
  {
    if |a| > 0 {
      assert (a + b)[0] == a[0];
      assert (a + b)[1..] == a[1..] + b;
      TrimStartAppend(a[1..], b);
    } else {
      assert a + b == b;
    }
  }

  /**
   * A line that is not kept becomes its key and '=': the text before its
   * first '=' (the whole line if it has none), followed by a single '='.
   * Whatever followed the first '=', the value, is gone.
   */
  lemma KeyLineDropsValue(line: string)
    requires !KeptVerbatim(line)
    ensures var out := ExampleLine(line);
      && out == line[..|out| - 1] + "="
      && '=' !in out[..|out| - 1]
      && ('=' in line ==> line[|out| - 1] == '=')
      && ('=' !in line ==> out == line + "=")
  {
    var key := KeyOf(line);
    if '=' !in line {
      assert |key| == |line|;
    }
  }

  /** Whether a line is kept depends only on its first character other than whitespace. */
  lemma KeptVerbatimByTrimStart(line: string)
    ensures KeptVerbatim(line) <==> TrimStart(line) == "" || TrimStart(line)[0] == '#'
  {
    TrimOfTrimmedStart(line);
  }

  /** The key line of a line that is not kept is not kept either. */
  lemma KeyLineNotKept(line: string)
    requires !KeptVerbatim(line)
    ensures !KeptVerbatim(KeyOf(line) + "=")
  {
    var key := KeyOf(line);
    var rest := line[|key|..];
    assert line == key + rest;
    KeptVerbatimByTrimStart(line);
    KeptVerbatimByTrimStart(key + "=");
    StartBeforeEquals(key, rest);
  }

  /**
   * Cutting a line at an '=' (or at its end) and appending '=' keeps its
   * first character other than whitespace unless it had none, and then that
   * character is the '='.
   */
  lemma StartBeforeEquals(key: string, rest: string)
    requires rest == "" || rest[0] == '='
    ensures TrimStart(key + "=") != ""
    ensures TrimStart(key + rest) != "" ==> TrimStart(key + "=")[0] == TrimStart(key + rest)[0]
    ensures TrimStart(key + rest) == "" ==> TrimStart(key + "=") == "="
  {
    TrimStartAppend(key, "=");
    TrimStartAppend(key, rest);
    var t := TrimStart(key);
    if t == "" {
      assert TrimStart("=") == "=";
      assert TrimStart(rest) == "" || TrimStart(rest) == rest;
    } else {
      assert (t + rest)[0] == t[0];
      assert (t + "=")[0] == t[0];
    }
  }

  /** The transform of a line is a fixed point of the transform. */
  lemma ExampleLineIdempotent(line: string)
    ensures ExampleLine(ExampleLine(line)) == ExampleLine(line)
  {
    if !KeptVerbatim(line) {
      KeyLineNotKept(line);
      KeyOfAppend(KeyOf(line));
    }
  }

  lemma {:induction false} KeyOfAppend(key: string)
    requires '=' !in key
    ensures KeyOf(key + "=") == key
  {
    if |key| > 0 {
      assert (key + "=")[1..] == key[1..] + "=";
      KeyOfAppend(key[1..]);
      assert [key[0]] + key[1..] == key;
    } else {
      assert key + "=" == "=";
    }
  }

  /*
   * The whole file.
   */

  /** `.env.example` has the lines of `.env`, in order, each transformed on its own. */
  lemma ExampleContentLines(env: string)
    ensures Split(ExampleContent(env)) == ExampleLines(Split(env))
    ensures |Split(ExampleContent(env))| == |Split(env)|
  {
    var out := ExampleLines(Split(env));
    forall i | 0 <= i < |out|
      ensures '\n' !in out[i]
    {
      var line := Split(env)[i];
      if !KeptVerbatim(line) {
        var key := KeyOf(line);
        forall k | 0 <= k < |key|
          ensures key[k] != '\n'
        {
          assert key[k] == line[k];
        }
      }
    }
    SplitJoin(out);
  }

  /** Running the script on its own output changes nothing. */
  lemma ExampleContentIdempotent(env: string)
    ensures ExampleContent(ExampleContent(env)) == ExampleContent(env)
  {
    var lines := Split(env);
    ExampleContentLines(env);
    var out := ExampleLines(lines);
    forall i | 0 <= i < |out|
      ensures ExampleLine(out[i]) == out[i]
    {
      ExampleLineIdempotent(lines[i]);
    }
    assert ExampleLines(out) == out;
  }
}
