/** The Python `str` operations the judge applies to program input and output:
    `strip`, `rstrip` and the two `replace` calls on line endings. */
module Text {

  /** The characters `str.strip()` removes: space, tab, LF, CR, VT and FF. */
  predicate IsSpace(c: char) {
    c == ' ' || c == '\t' || c == '\n' || c == '\r' || c == '\U{B}' || c == '\U{C}'
  }

  predicate AllSpace(s: string) {
    forall i | 0 <= i < |s| :: IsSpace(s[i])
  }

  /** `s.rstrip()`. */
  function RStrip(s: string): (r: string)
    ensures |r| <= |s|
  {
    if s == [] || !IsSpace(s[|s| - 1]) then s else RStrip(s[..|s| - 1])
  }

  /** `s.rstrip()` is the longest prefix of `s` that does not end in
      whitespace: what it removes is all whitespace. */
  lemma {:induction false} RStripSpec(s: string)
    ensures RStrip(s) <= s
    ensures RStrip(s) == [] || !IsSpace(RStrip(s)[|RStrip(s)| - 1])
    ensures forall i | |RStrip(s)| <= i < |s| :: IsSpace(s[i])
  {
    if s != [] && IsSpace(s[|s| - 1]) {
      RStripSpec(s[..|s| - 1]);
    }
  }

  /** Right-stripping twice strips nothing more. */
  lemma RStripIdempotent(s: string)
    ensures RStrip(RStrip(s)) == RStrip(s)
  {
    RStripSpec(s);
  }

  /** `s.lstrip()`. */
  function LStrip(s: string): (r: string)
    ensures |r| <= |s|
  {
    if s == [] || !IsSpace(s[0]) then s else LStrip(s[1..])
  }

  /** `s.lstrip()` is the longest suffix of `s` that does not start with
      whitespace: what it removes is all whitespace. */
  lemma {:induction false} LStripSpec(s: string)
    ensures |LStrip(s)| <= |s| && LStrip(s) == s[|s| - |LStrip(s)|..]
    ensures LStrip(s) == [] || !IsSpace(LStrip(s)[0])
    ensures forall i | 0 <= i < |s| - |LStrip(s)| :: IsSpace(s[i])
  {
    if s != [] && IsSpace(s[0]) {
      LStripSpec(s[1..]);
    }
  }

  /** `s.strip()`: whitespace removed from both ends. */
  function Strip(s: string): (r: string)
    ensures |r| <= |s|
  {
    RStrip(LStrip(s))
  }

  /** `s.replace('\r\n', '\n')`: Python scans left to right and replaces
      non-overlapping occurrences, so "\r\r\n" becomes "\r\n". */
  function ReplaceCrlf(s: string): (r: string)
    ensures |r| <= |s|
  {
    if |s| >= 2 && s[0] == '\r' && s[1] == '\n' then "\n" + ReplaceCrlf(s[2..])
    else if s == [] then []
    else [s[0]] + ReplaceCrlf(s[1..])
  }

  /** `s.replace('\r', '\n')`. */
  function ReplaceCr(s: string): (r: string)
    ensures |r| == |s| && '\r' !in r
    ensures forall i | 0 <= i < |s| :: r[i] == (if s[i] == '\r' then '\n' else s[i])
  {
    seq(|s|, i requires 0 <= i < |s| => if s[i] == '\r' then '\n' else s[i])
  }

  /** The text with every LF written as CRLF, as a program on Windows prints it. */
  function ToCrlf(s: string): string {
    if s == [] then []
    else (if s[0] == '\n' then "\r\n" else [s[0]]) + ToCrlf(s[1..])
  }

  /** Reference definition of line-ending unification in one pass:
      each CRLF, each lone CR and each LF becomes one LF. */
  function UnifyNewlines(s: string): string {
    if |s| >= 2 && s[0] == '\r' && s[1] == '\n' then "\n" + UnifyNewlines(s[2..])
    else if s == [] then []
    else [if s[0] == '\r' then '\n' else s[0]] + UnifyNewlines(s[1..])
  }

  // ---------------------------------------------------------------------
  // Line endings

  lemma {:induction false} ReplaceCrlfKeepsCrFree(s: string)
    requires '\r' !in s
    ensures ReplaceCrlf(s) == s
  {
    if s != [] {
      assert s[0] != '\r' && s == [s[0]] + s[1..];
      ReplaceCrlfKeepsCrFree(s[1..]);
    }
  }

  lemma ReplaceCrConcat(a: string, b: string)
    ensures ReplaceCr(a + b) == ReplaceCr(a) + ReplaceCr(b)
  {
  }

  /** Applying the two `replace` calls in sequence is the one-pass unification. */
  lemma {:induction false} ReplaceChainIsUnify(s: string)
    ensures ReplaceCr(ReplaceCrlf(s)) == UnifyNewlines(s)
  {
    if |s| >= 2 && s[0] == '\r' && s[1] == '\n' {
      var rest := ReplaceCrlf(s[2..]);
      assert ReplaceCrlf(s) == "\n" + rest;
      ReplaceChainIsUnify(s[2..]);
      ReplaceCrConcat("\n", rest);
      assert ReplaceCr("\n") == "\n";
    } else if s != [] {
      var rest := ReplaceCrlf(s[1..]);
      assert ReplaceCrlf(s) == [s[0]] + rest;
      ReplaceChainIsUnify(s[1..]);
      ReplaceCrConcat([s[0]], rest);
      assert ReplaceCr([s[0]]) == [if s[0] == '\r' then '\n' else s[0]];
    }
  }

  lemma ToCrlfConcat(a: string, b: string)
    ensures ToCrlf(a + b) == ToCrlf(a) + ToCrlf(b)
  {
    if a == [] {
      assert a + b == b;
    } else {
      assert (a + b)[0] == a[0] && (a + b)[1..] == a[1..] + b;
      ToCrlfConcat(a[1..], b);
    }
  }

  /** CRLF output compares equal to the LF text it encodes. */
  lemma {:induction false} ReplaceCrlfUndoesToCrlf(s: string)
    requires '\r' !in s
    ensures ReplaceCrlf(ToCrlf(s)) == s
  {
    if s != [] {
      assert s[0] != '\r';
      ReplaceCrlfUndoesToCrlf(s[1..]);
      var rest := ToCrlf(s[1..]);
      if s[0] == '\n' {
        assert ToCrlf(s) == "\r\n" + rest;
        assert ("\r\n" + rest)[2..] == rest;
      } else {
        assert ToCrlf(s) == [s[0]] + rest;
        assert ([s[0]] + rest)[1..] == rest;
      }
    }
  }

  // ---------------------------------------------------------------------
  // Stripping

  lemma {:induction false} LStripSkipsSpace(w: string, s: string)
    requires AllSpace(w)
    ensures LStrip(w + s) == LStrip(s)
  {
    if w != [] {
      assert (w + s)[0] == w[0] && (w + s)[1..] == w[1..] + s;
      LStripSkipsSpace(w[1..], s);
    } else {
      assert w + s == s;
    }
  }

  lemma {:induction false} RStripSkipsSpace(s: string, w: string)
    requires AllSpace(w)
    ensures RStrip(s + w) == RStrip(s)
  {
    if w != [] {
      var n := |s + w|;
      assert (s + w)[n - 1] == w[|w| - 1];
      assert (s + w)[..n - 1] == s + w[..|w| - 1];
      RStripSkipsSpace(s, w[..|w| - 1]);
    } else {
      assert s + w == s;
    }
  }

  /** `lstrip` leaves text that does not start with whitespace alone, whatever follows it. */
  lemma {:induction false} LStripKeepsTail(s: string, w: string)
    requires LStrip(s) != []
    ensures LStrip(s + w) == LStrip(s) + w
  {
    assert (s + w)[0] == s[0];
    if IsSpace(s[0]) {
      assert (s + w)[1..] == s[1..] + w;
      LStripKeepsTail(s[1..], w);
    }
  }

  /** Whitespace around the text does not change what `strip` returns. */
  lemma StripIgnoresSurroundingSpace(w1: string, s: string, w2: string)
    requires AllSpace(w1) && AllSpace(w2)
    ensures Strip(w1 + s + w2) == Strip(s)
  {
    assert w1 + s + w2 == w1 + (s + w2);
    LStripSkipsSpace(w1, s + w2);
    if LStrip(s) == [] {
      LStripSpec(s);
      var k := |s|;
      assert s == s[..k];
      assert AllSpace(s + w2);
      LStripSkipsSpace(s + w2, []);
      assert s + w2 + [] == s + w2;
    } else {
      LStripKeepsTail(s, w2);
      RStripSkipsSpace(LStrip(s), w2);
    }
  }

  lemma {:induction false} LStripToCrlf(s: string)
    ensures LStrip(ToCrlf(s)) == ToCrlf(LStrip(s))
  {
    if s != [] {
      var head := if s[0] == '\n' then "\r\n" else [s[0]];
      assert ToCrlf(s) == head + ToCrlf(s[1..]);
      if IsSpace(s[0]) {
        LStripSkipsSpace(head, ToCrlf(s[1..]));
        LStripToCrlf(s[1..]);
      }
    }
  }

  lemma {:induction false} RStripToCrlf(s: string)
    ensures RStrip(ToCrlf(s)) == ToCrlf(RStrip(s))
    decreases |s|
  {
    if s != [] {
      var p, x := s[..|s| - 1], s[|s| - 1];
      assert s == p + [x];
      ToCrlfConcat(p, [x]);
      var tail := if x == '\n' then "\r\n" else [x];
      assert ToCrlf([x]) == tail + ToCrlf([]);
      assert ToCrlf(s) == ToCrlf(p) + tail;
      if IsSpace(x) {
        RStripSkipsSpace(ToCrlf(p), tail);
        RStripToCrlf(p);
      }
    }
  }

  lemma StripToCrlf(s: string)
    ensures Strip(ToCrlf(s)) == ToCrlf(Strip(s))
  {
    LStripToCrlf(s);
    RStripToCrlf(LStrip(s));
  }

  lemma StripKeepsCrFree(s: string)
    requires '\r' !in s
    ensures '\r' !in Strip(s)
  {
    var l := LStrip(s);
    LStripSpec(s);
    RStripSpec(l);
    var r := RStrip(l);
    forall i | 0 <= i < |r| ensures r[i] != '\r' {
      assert r[i] == l[i] == s[|s| - |l| + i];
    }
  }
}
