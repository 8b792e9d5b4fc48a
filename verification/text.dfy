/**
 * The string handling of the event forms: Python's `str.strip()`,
 * `str.split(',')` and `', '.join(...)`, and the recipient-list parser built
 * from them.
 */
module Text {

  /** Python's `str.isspace()` for one character. */
  predicate IsSpace(c: char) {
    var n := c as int;
    || 9 <= n <= 13 || 0x1c <= n <= 0x20 || n == 0x85 || n == 0xa0 || n == 0x1680
    || 0x2000 <= n <= 0x200a || n == 0x2028 || n == 0x2029 || n == 0x202f || n == 0x205f || n == 0x3000
  }

  predicate AllSpace(s: string) {
    forall i :: 0 <= i < |s| ==> IsSpace(s[i])
  }

  /** Neither end of `s` is whitespace. */
  predicate Trimmed(s: string) {
    s == [] || (!IsSpace(s[0]) && !IsSpace(s[|s| - 1]))
  }

  function TrimStart(s: string): (r: string)
    ensures |r| <= |s| && r == s[|s| - |r|..]
    ensures AllSpace(s[..|s| - |r|])
    ensures r == [] || !IsSpace(r[0])
    decreases |s|
  {
    if s != [] && IsSpace(s[0]) then
      var r := TrimStart(s[1..]);
      assert s[..|s| - |r|] == [s[0]] + s[1..][..|s| - 1 - |r|];
      r
    else s
  }

  function TrimEnd(s: string): (r: string)
    ensures |r| <= |s| && r == s[..|r|]
    ensures AllSpace(s[|r|..])
    ensures r == [] || !IsSpace(r[|r| - 1])
    decreases |s|
  {
    if s != [] && IsSpace(s[|s| - 1]) then
      var r := TrimEnd(s[..|s| - 1]);
      assert s[|r|..] == s[..|s| - 1][|r|..] + [s[|s| - 1]];
      r
    else s
  }

  /** `s.strip()`: `s` with its leading and trailing whitespace removed. */
  function Strip(s: string): (r: string)
    ensures Trimmed(r)
    ensures |r| <= |s|
  {
    TrimEnd(TrimStart(s))
  }

  lemma {:induction false} TrimStartOf(a: string, t: string)
    requires AllSpace(a)
    requires t == [] || !IsSpace(t[0])
    ensures TrimStart(a + t) == t
    decreases |a|
  {
    if a != [] {
      assert (a + t)[1..] == a[1..] + t;
      TrimStartOf(a[1..], t);
    }
  }

  lemma {:induction false} TrimEndOf(t: string, b: string)
    requires AllSpace(b)
    requires t == [] || !IsSpace(t[|t| - 1])
    ensures TrimEnd(t + b) == t
    decreases |b|
  {
    if b != [] {
      assert (t + b)[..|t + b| - 1] == t + b[..|b| - 1];
      TrimEndOf(t, b[..|b| - 1]);
    }
  }

  /**
   * `Strip` is characterised by its input's shape: a whitespace run, a core
   * that neither starts nor ends with whitespace, and another whitespace run.
   */
  lemma {:induction false} StripOf(a: string, r: string, b: string)
    requires AllSpace(a) && AllSpace(b) && Trimmed(r)
    ensures Strip(a + r + b) == r
  {
    if r == [] {
      assert a + r + b == (a + b) + [];
      TrimStartOf(a + b, []);
    } else {
      assert a + r + b == a + (r + b);
      TrimStartOf(a, r + b);
      TrimEndOf(r, b);
    }
  }

  /** What `Strip` removes is whitespace, from both ends, and nothing else. */
  lemma {:induction false} StripShape(s: string)
    ensures exists i :: 0 <= i <= |s| - |Strip(s)|
                        && s[i..i + |Strip(s)|] == Strip(s) && AllSpace(s[..i]) && AllSpace(s[i + |Strip(s)|..])
  {
    var t := TrimStart(s);
    var r := TrimEnd(t);
    var i := |s| - |t|;
    assert r == Strip(s);
    assert s[i..] == t;
    assert s[i..i + |r|] == t[..|r|];
    assert s[i + |r|..] == t[|r|..];
  }

  lemma {:induction false} StripIdempotent(s: string)
    ensures Strip(Strip(s)) == Strip(s)
  {
    StripOf([], Strip(s), []);
    assert [] + Strip(s) + [] == Strip(s);
  }

  /** Number of occurrences of `c` in `s`. */
  function Count(s: string, c: char): nat {
    if s == [] then 0 else (if s[0] == c then 1 else 0) + Count(s[1..], c)
  }

  /** `s.split(sep)`: the pieces between separators; an empty string gives one empty piece. */
  function Split(s: string, sep: char): (r: seq<string>)
    ensures |r| == Count(s, sep) + 1
    ensures forall i :: 0 <= i < |r| ==> sep !in r[i]
    decreases |s|
  {
    if s == [] then [[]]
    else
      var rest := Split(s[1..], sep);
      if s[0] == sep then [[]] + rest
      else [[s[0]] + rest[0]] + rest[1..]
  }

  /** The combined length of a list of strings. */
  function TotalLength(pieces: seq<string>): nat {
    if pieces == [] then 0 else |pieces[0]| + TotalLength(pieces[1..])
  }

  /**
   * `glue.join(pieces)`: the pieces in order with one glue between each
   * neighbouring pair, so the text starts with the first piece.
   */
  function Join(pieces: seq<string>, glue: string): (r: string)
    ensures pieces == [] ==> r == []
    ensures pieces != [] ==> |r| == TotalLength(pieces) + (|pieces| - 1) * |glue|
    ensures pieces != [] ==> r[..|pieces[0]|] == pieces[0]
  {
    if pieces == [] then []
    else if |pieces| == 1 then pieces[0]
    else pieces[0] + glue + Join(pieces[1..], glue)
  }

  /** Joining the pieces of a split with the separator restores the string. */
  lemma {:induction false} JoinSplit(s: string, sep: char)
    ensures Join(Split(s, sep), [sep]) == s
    decreases |s|
  {
    if s != [] {
      var rest := Split(s[1..], sep);
      JoinSplit(s[1..], sep);
      if s[0] == sep {
        assert Split(s, sep)[1..] == rest;
      } else if |rest| > 1 {
        assert Split(s, sep)[1..] == rest[1..];
      }
    }
  }

  /** A leading character other than the separator joins the first piece. */
  lemma {:induction false} SplitCons(c: char, u: string, sep: char)
    requires c != sep
    ensures Split([c] + u, sep) == [[c] + Split(u, sep)[0]] + Split(u, sep)[1..]
  {
    assert ([c] + u)[1..] == u;
  }

  lemma {:induction false} SplitPrefix(a: string, t: string, sep: char)
    requires sep !in a
    ensures Split(a + t, sep) == [a + Split(t, sep)[0]] + Split(t, sep)[1..]
    decreases |a|
  {
    var st := Split(t, sep);
    if a != [] {
      var u := a[1..] + t;
      assert a + t == [a[0]] + u;
      assert a[0] in a;
      SplitCons(a[0], u, sep);
      SplitPrefix(a[1..], t, sep);
      var rest := Split(u, sep);
      assert rest[0] == a[1..] + st[0];
      assert rest[1..] == st[1..];
      assert [a[0]] + (a[1..] + st[0]) == a + st[0];
    } else {
      assert a + t == t;
      assert a + st[0] == st[0];
      assert st == [st[0]] + st[1..];
    }
  }

  /** A leading separator contributes one empty piece. */
  lemma {:induction false} SplitAfterSeparator(t: string, sep: char)
    ensures Split([sep] + t, sep) == [[]] + Split(t, sep)
  {
    assert ([sep] + t)[1..] == t;
  }

  /** Splitting a join undoes it when no piece holds the separator. */
  lemma {:induction false} SplitJoin(pieces: seq<string>, sep: char)
    requires |pieces| >= 1
    requires forall i :: 0 <= i < |pieces| ==> sep !in pieces[i]
    ensures Split(Join(pieces, [sep]), sep) == pieces
    decreases |pieces|
  {
    var a := pieces[0];
    if |pieces| == 1 {
      SplitPrefix(a, [], sep);
      assert a + [] == a;
    } else {
      var tail := Join(pieces[1..], [sep]);
      SplitJoin(pieces[1..], sep);
      assert Join(pieces, [sep]) == a + ([sep] + tail);
      assert sep !in a;
      SplitPrefix(a, [sep] + tail, sep);
      SplitAfterSeparator(tail, sep);
      var st := Split([sep] + tail, sep);
      assert st[0] == [] && st[1..] == pieces[1..];
      assert a + [] == a;
      assert pieces == [a] + pieces[1..];
    }
  }

  /** Stripping never brings in a character the input lacked. */
  lemma {:induction false} StripKeepsOut(s: string, c: char)
    requires c !in s
    ensures c !in Strip(s)
  {
  }

  /** Strips every element of a list of strings. */
  function StripAll(pieces: seq<string>): (r: seq<string>)
    ensures |r| == |pieces|
    ensures forall i :: 0 <= i < |r| ==> r[i] == Strip(pieces[i])
  {
    if pieces == [] then [] else [Strip(pieces[0])] + StripAll(pieces[1..])
  }

  lemma {:induction false} StripAllKeepsOut(pieces: seq<string>, c: char)
    requires forall i :: 0 <= i < |pieces| ==> c !in pieces[i]
    ensures forall i :: 0 <= i < |pieces| ==> c !in StripAll(pieces)[i] && Trimmed(StripAll(pieces)[i])
  {
    forall i | 0 <= i < |pieces| ensures c !in StripAll(pieces)[i] && Trimmed(StripAll(pieces)[i]) {
      StripKeepsOut(pieces[i], c);
      var s := Strip(pieces[i]);
      assert StripAll(pieces)[i] == s;
      assert Trimmed(s);
    }
  }

  /** `[email.strip() for email in raw.split(',')]`. */
  function ParseEmails(raw: string): (r: seq<string>)
    ensures |r| == Count(raw, ',') + 1
    ensures forall i :: 0 <= i < |r| ==> ',' !in r[i] && Trimmed(r[i])
  {
    var pieces := Split(raw, ',');
    StripAllKeepsOut(pieces, ',');
    StripAll(pieces)
  }

  /** An address with no comma and no surrounding whitespace survives a form round trip. */
  predicate CleanAddress(a: string) {
    ',' !in a && Trimmed(a)
  }

  /** Every string with one space put in front. */
  function Spaced(xs: seq<string>): (r: seq<string>)
    ensures |r| == |xs|
    ensures forall i :: 0 <= i < |xs| ==> r[i] == " " + xs[i]
  {
    if xs == [] then [] else [" " + xs[0]] + Spaced(xs[1..])
  }

  /** `', '.join(emails).split(',')` is the first address followed by the others, each after a space. */
  lemma {:induction false} SplitOfJoin(emails: seq<string>)
    requires |emails| >= 1
    requires forall i :: 0 <= i < |emails| ==> CleanAddress(emails[i])
    ensures Split(Join(emails, ", "), ',') == [emails[0]] + Spaced(emails[1..])
    decreases |emails|
  {
    var e := emails[0];
    assert e in emails;
    if |emails| == 1 {
      SplitPrefix(e, [], ',');
      assert e + [] == e;
    } else {
      var tail := emails[1..];
      var rest := Join(tail, ", ");
      SplitOfJoin(tail);
      assert Join(emails, ", ") == e + ([','] + (" " + rest));
      SplitPrefix(e, [','] + (" " + rest), ',');
      SplitAfterSeparator(" " + rest, ',');
      assert e + [] == e;
      assert tail[0] in emails;
      SplitPrefix(" ", rest, ',');
      assert Spaced(tail) == [" " + tail[0]] + Spaced(tail[1..]);
    }
  }

  lemma {:induction false} StripAfterSpace(x: string)
    requires Trimmed(x)
    ensures Strip(" " + x) == x
  {
    StripOf(" ", x, []);
    assert " " + x + [] == " " + x;
  }

  lemma {:induction false} StripSpaced(xs: seq<string>)
    requires forall i :: 0 <= i < |xs| ==> Trimmed(xs[i])
    ensures StripAll(Spaced(xs)) == xs
  {
    var r := StripAll(Spaced(xs));
    forall i | 0 <= i < |xs| ensures r[i] == xs[i] {
      StripAfterSpace(xs[i]);
    }
  }

  /** Stripping a list is stripping its head, then its tail. */
  lemma {:induction false} StripAllCons(x: string, ys: seq<string>, out: seq<string>)
    requires |out| == |ys| + 1 && Strip(x) == out[0] && StripAll(ys) == out[1..]
    ensures StripAll([x] + ys) == out
  {
    var p := [x] + ys;
    assert p[0] == x && p[1..] == ys;
    assert StripAll(p) == [out[0]] + out[1..];
    assert out == [out[0]] + out[1..];
  }

  /** The pieces of `', '.join(emails).split(',')` strip back to the addresses. */
  lemma {:induction false} StripPieces(emails: seq<string>)
    requires |emails| >= 1
    requires forall i :: 0 <= i < |emails| ==> CleanAddress(emails[i])
    ensures StripAll([emails[0]] + Spaced(emails[1..])) == emails
  {
    StripSpaced(emails[1..]);
    StripOf([], emails[0], []);
    assert [] + emails[0] + [] == emails[0];
    StripAllCons(emails[0], Spaced(emails[1..]), emails);
  }

  /**
   * The edit dialog shows the addresses as `', '.join(emails)`; reading that
   * text back with `ParseEmails` gives the same list.
   */
  lemma {:induction false} ParseEmailsOfJoin(emails: seq<string>)
    requires |emails| >= 1
    requires forall i :: 0 <= i < |emails| ==> CleanAddress(emails[i])
    ensures ParseEmails(Join(emails, ", ")) == emails
  {
    SplitOfJoin(emails);
    StripPieces(emails);
  }
}
