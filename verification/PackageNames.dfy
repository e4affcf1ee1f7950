/** Canonical package names: the PyPI rule against PEP 503, and lower-casing elsewhere. */
module PackageNames {
  import opened Text

  function LowerChar(c: char): char {
    if 'A' <= c <= 'Z' then (c as int + 32) as char else c
  }

  function Lower(s: string): (r: string)
    ensures |r| == |s| && forall i | 0 <= i < |s| :: r[i] == LowerChar(s[i])
  {
    seq(|s|, i requires 0 <= i < |s| => LowerChar(s[i]))
  }

  predicate IsSeparator(c: char) {
    c == '.' || c == '-' || c == '_'
  }

  predicate HasSeparator(s: string) {
    exists i | 0 <= i < |s| :: IsSeparator(s[i])
  }

  // ---------------------------------------------------------------------------
  // PEP 503
  // ---------------------------------------------------------------------------

  /** Every maximal run of separators becomes one dash. */
  function Pep503(s: string): string {
    if s == "" then ""
    else if IsSeparator(s[0]) then "-" + Pep503(s[Span(s, IsSeparator)..])
    else [s[0]] + Pep503(s[1..])
  }

  /** The same, one character at a time, as the loop goes. */
  function Collapsed(s: string): string {
    if s == "" then ""
    else
      var front, last := Collapsed(s[..|s| - 1]), s[|s| - 1];
      if !IsSeparator(last) then front + [last]
      else if |s| > 1 && IsSeparator(s[|s| - 2]) then front
      else front + "-"
  }

  function StripDashes(s: string): string {
    if s != "" && s[|s| - 1] == '-' then StripDashes(s[..|s| - 1]) else s
  }

  lemma {:induction false} SpanOfMore(s: string, c: char)
    ensures var n := Span(s, IsSeparator);
            Span(s + [c], IsSeparator) == if n == |s| && IsSeparator(c) then |s| + 1 else n
  {
    if s != "" {
      assert (s + [c])[1..] == s[1..] + [c];
      SpanOfMore(s[1..], c);
    }
  }

  lemma {:induction false} Pep503Grows(s: string, c: char)
    ensures Pep503(s + [c])
            == if !IsSeparator(c) then Pep503(s) + [c]
               else if s != "" && IsSeparator(s[|s| - 1]) then Pep503(s)
               else Pep503(s) + "-"
    decreases |s|
  {
    var t := s + [c];
    if s == "" {
      assert t == [c] && t[1..] == "";
    } else if IsSeparator(s[0]) {
      var n := Span(s, IsSeparator);
      SpanOfMore(s, c);
      if n == |s| {
        assert s[n..] == "" && IsSeparator(s[|s| - 1]);
        assert t[|s|..] == [c] && t[|s| + 1..] == "";
        assert !IsSeparator(c) ==> [c][1..] == "";
      } else {
        assert t[n..] == s[n..] + [c];
        Pep503Grows(s[n..], c);
      }
    } else {
      assert t[1..] == s[1..] + [c];
      Pep503Grows(s[1..], c);
    }
  }

  lemma {:induction false} CollapsedIsPep503(s: string)
    ensures Collapsed(s) == Pep503(s)
  {
    if s != "" {
      CollapsedIsPep503(s[..|s| - 1]);
      Pep503Grows(s[..|s| - 1], s[|s| - 1]);
      assert s == s[..|s| - 1] + [s[|s| - 1]];
    }
  }

  lemma {:induction false} NothingToCollapse(s: string)
    requires !HasSeparator(s)
    ensures Collapsed(s) == s && StripDashes(s) == s
  {
    if s != "" {
      var front := s[..|s| - 1];
      assert s == front + [s[|s| - 1]];
      assert forall i | 0 <= i < |front| :: front[i] == s[i];
      NothingToCollapse(front);
      assert !IsSeparator(s[|s| - 1]);
    }
  }

  /** The normal form of a PyPI name: PEP 503's, with trailing separators dropped altogether. */
  method NormalizePypi(name: string) returns (result: string)
    ensures result == StripDashes(Pep503(Lower(name)))
  {
    var lower := Lower(name);
    CollapsedIsPep503(lower);
    if !HasSeparator(lower) {
      NothingToCollapse(lower);
      return lower;
    }
    result := "";
    var prevSep := false;
    for i := 0 to |lower|
      invariant result == Collapsed(lower[..i])
      invariant prevSep <==> i > 0 && IsSeparator(lower[i - 1])
    {
      assert lower[..i + 1][..i] == lower[..i];
      var c := lower[i];
      if IsSeparator(c) {
        if !prevSep {
          result := result + "-";
          prevSep := true;
        }
      } else {
        result := result + [c];
        prevSep := false;
      }
    }
    assert lower[..|lower|] == lower;
    while result != "" && result[|result| - 1] == '-'
      invariant StripDashes(result) == StripDashes(Collapsed(lower))
      decreases |result|
    {
      result := result[..|result| - 1];
    }
  }

  function NormalPypi(name: string): string {
    StripDashes(Pep503(Lower(name)))
  }

  lemma {:induction false} CollapsedShape(s: string)
    ensures s == "" <==> Collapsed(s) == ""
    ensures s != "" ==> Collapsed(s)[|Collapsed(s)| - 1] == if IsSeparator(s[|s| - 1]) then '-' else s[|s| - 1]
    ensures forall i | 0 <= i < |Collapsed(s)| && IsSeparator(Collapsed(s)[i]) :: Collapsed(s)[i] == '-'
    ensures forall i | 0 < i < |Collapsed(s)| :: !(Collapsed(s)[i - 1] == '-' && Collapsed(s)[i] == '-')
  {
    if s != "" {
      CollapsedShape(s[..|s| - 1]);
    }
  }

  lemma StripDashesAtMostOne(s: string)
    requires forall i | 0 < i < |s| :: !(s[i - 1] == '-' && s[i] == '-')
    ensures StripDashes(s) == if s != "" && s[|s| - 1] == '-' then s[..|s| - 1] else s
  {
    if s != "" && s[|s| - 1] == '-' {
      var front := s[..|s| - 1];
      assert StripDashes(front) == front;
    }
  }

  /** The normal form is PEP 503's exactly for names that do not end in a separator; one that does loses the
    * dash PEP 503 leaves. */
  lemma NormalFormAgainstPep503(name: string)
    ensures NormalPypi(name) == Pep503(Lower(name)) <==> name == "" || !IsSeparator(name[|name| - 1])
    ensures name != "" && IsSeparator(name[|name| - 1]) ==> NormalPypi(name) + "-" == Pep503(Lower(name))
  {
    var lower := Lower(name);
    CollapsedIsPep503(lower);
    CollapsedShape(lower);
    StripDashesAtMostOne(Collapsed(lower));
    assert name != "" ==> lower[|lower| - 1] == LowerChar(name[|name| - 1]);
  }

  lemma {:induction false} CollapsedFixed(s: string)
    requires forall i | 0 <= i < |s| && IsSeparator(s[i]) :: s[i] == '-'
    requires forall i | 0 < i < |s| :: !(s[i - 1] == '-' && s[i] == '-')
    ensures Collapsed(s) == s
  {
    if s != "" {
      var front := s[..|s| - 1];
      assert s == front + [s[|s| - 1]];
      assert forall i | 0 <= i < |front| :: front[i] == s[i];
      CollapsedFixed(front);
    }
  }

  lemma {:induction false} CollapsedStaysLower(s: string)
    requires forall i | 0 <= i < |s| :: LowerChar(s[i]) == s[i]
    ensures forall i | 0 <= i < |Collapsed(s)| :: LowerChar(Collapsed(s)[i]) == Collapsed(s)[i]
  {
    if s != "" {
      CollapsedStaysLower(s[..|s| - 1]);
    }
  }

  /** A normal form is its own normal form. */
  lemma NormalPypiIsIdempotent(name: string)
    ensures NormalPypi(NormalPypi(name)) == NormalPypi(name)
  {
    var lower := Lower(name);
    var collapsed := Collapsed(lower);
    CollapsedIsPep503(lower);
    CollapsedShape(lower);
    CollapsedStaysLower(lower);
    StripDashesAtMostOne(collapsed);
    var normal := StripDashes(collapsed);
    assert forall i | 0 <= i < |normal| :: normal[i] == collapsed[i];
    assert Lower(normal) == normal;
    CollapsedFixed(normal);
    CollapsedIsPep503(normal);
    StripDashesAtMostOne(normal);
  }
}
