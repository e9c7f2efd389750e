/** What sanitising a template value keeps, and when an opening mark is left in it. */
module SanitisingLaws {
  import opened Strings
  import opened Template
  import opened Rendering
  import Utf8

  /** Control characters by their bytes: one below 32, byte 127, or 194 followed by one below 160. */
  lemma ControlsEncode(c: char)
    ensures var bytes := Utf8.EncodeChar(c);
            IsControl(c) <==> bytes[0] < 32 || bytes[0] == 127 || (|bytes| == 2 && bytes[0] == 194 && bytes[1] < 160)
  {
  }

  predicate OpeningAt(v: string, k: nat) {
    k + 1 < |v| && v[k] == '$' && v[k + 1] == '{'
  }

  predicate Survives(c: char) {
    (!IsControl(c) || c == '\n' || c == '\t') && c != '}'
  }

  /** Position `k` is kept: printable, not a closing brace, and neither half of an opening mark. */
  predicate Kept(v: string, k: nat)
    requires k < |v|
  {
    Survives(v[k]) && !OpeningAt(v, k) && !(k > 0 && OpeningAt(v, k - 1))
  }

  // The kept characters from position `k` on.
  function Chosen(v: string, k: nat): string
    requires k <= |v|
    decreases |v| - k
  {
    if k == |v| then "" else (if Kept(v, k) then [v[k]] else "") + Chosen(v, k + 1)
  }

  // ---------- sanitising keeps exactly the kept characters ----------

  lemma BraceStep(c: char, rest: string)
    ensures Replace([c] + rest, "}", "") == (if c == '}' then "" else [c]) + Replace(rest, "}", "")
  {
    var s := [c] + rest;
    assert s[1..] == rest;
    if c == '}' {
      ReplaceHits(rest, "}", "");
      assert s == "}" + rest;
    } else {
      assert s[0] == c;
      ReplaceSteps(s, "}", "");
    }
  }

  lemma PrintableStep(c: char, rest: string)
    ensures KeepPrintable([c] + rest) == (if !IsControl(c) || c == '\n' || c == '\t' then [c] else "") + KeepPrintable(rest)
  {
    assert ([c] + rest)[1..] == rest;
  }

  lemma SanitiseOpening(v: string, k: nat)
    requires OpeningAt(v, k)
    ensures Sanitise(v[k..]) == Sanitise(v[k + 2..])
  {
    hide Replace, KeepPrintable;
    assert v[k..] == "${" + v[k + 2..];
    ReplaceHits(v[k + 2..], "${", "");
    assert "" + Replace(v[k + 2..], "${", "") == Replace(v[k + 2..], "${", "");
  }

  lemma SanitiseOther(v: string, k: nat)
    requires k < |v| && !OpeningAt(v, k)
    ensures Sanitise(v[k..]) == (if Survives(v[k]) then [v[k]] else "") + Sanitise(v[k + 1..])
  {
    hide Replace, KeepPrintable;
    var rest := Replace(v[k + 1..], "${", "");
    OpensAt(v, k);
    assert v[k..][1..] == v[k + 1..];
    ReplaceSteps(v[k..], "${", "");
    BraceStep(v[k], rest);
    PrintableStep(v[k], Replace(rest, "}", ""));
    assert "" + Replace(rest, "}", "") == Replace(rest, "}", "");
  }

  lemma NothingToSanitise()
    ensures Sanitise("") == ""
  {
  }

  lemma {:induction false} SanitiseFrom(v: string, k: nat)
    requires k <= |v| && (k > 0 ==> !OpeningAt(v, k - 1))
    ensures Sanitise(v[k..]) == Chosen(v, k)
    decreases |v| - k
  {
    hide Sanitise, Survives;
    if k == |v| {
      assert v[k..] == "";
      NothingToSanitise();
    } else if OpeningAt(v, k) {
      SanitiseOpening(v, k);
      SanitiseFrom(v, k + 2);
    } else {
      SanitiseOther(v, k);
      SanitiseFrom(v, k + 1);
    }
  }

  /** Sanitising leaves exactly the kept characters, in order. */
  lemma SanitiseKeepsTheKept(v: string)
    ensures Sanitise(v) == Chosen(v, 0)
  {
    SanitiseFrom(v, 0);
    assert v[0..] == v;
  }

  // ---------- opening marks that are left ----------

  // The first kept character from `k` on is at `j`.
  ghost predicate NextKept(v: string, k: nat, j: nat) {
    k <= j < |v| && Kept(v, j) && forall m :: k <= m < j ==> !Kept(v, m)
  }

  lemma {:induction false} ChosenBegins(v: string, k: nat)
    requires k <= |v|
    ensures Chosen(v, k) != "" && Chosen(v, k)[0] == '{' <==> exists j: nat :: NextKept(v, k, j) && v[j] == '{'
    decreases |v| - k
  {
    hide Survives;
    if k < |v| {
      ChosenBegins(v, k + 1);
      if Kept(v, k) {
        assert NextKept(v, k, k);
      } else {
        forall j: nat
          ensures NextKept(v, k, j) <==> NextKept(v, k + 1, j)
        {
        }
      }
    }
  }

  /** Two kept characters with nothing kept in between make an opening mark. */
  ghost predicate Joins(v: string, i: nat, j: nat) {
    i < |v| && Kept(v, i) && v[i] == '$' && NextKept(v, i + 1, j) && v[j] == '{'
  }

  lemma NoOpenCons(c: char, rest: string)
    ensures NoOpen([c] + rest) <==> NoOpen(rest) && !(c == '$' && rest != "" && rest[0] == '{')
  {
    var s := [c] + rest;
    assert forall i :: 0 <= i < |rest| ==> s[i + 1] == rest[i];
    if NoOpen(s) {
      NoOpenParts([c], rest);
    }
  }

  lemma {:induction false} ChosenOpens(v: string, k: nat)
    requires k <= |v|
    ensures !NoOpen(Chosen(v, k)) <==> exists i: nat, j: nat :: k <= i && Joins(v, i, j)
    decreases |v| - k
  {
    hide Kept;
    if k < |v| {
      hide Joins;
      ChosenOpens(v, k + 1);
      var rest := Chosen(v, k + 1);
      JoinsHere(v, k);
      assert (exists i: nat, j: nat :: k <= i && Joins(v, i, j))
        <==> (exists j: nat :: Joins(v, k, j)) || (exists i: nat, j: nat :: k + 1 <= i && Joins(v, i, j));
      if Kept(v, k) {
        NoOpenCons(v[k], rest);
      } else {
        assert Chosen(v, k) == "" + rest == rest;
      }
    }
  }

  lemma JoinsHere(v: string, k: nat)
    requires k < |v|
    ensures (exists j: nat :: Joins(v, k, j)) <==>
            Kept(v, k) && v[k] == '$' && Chosen(v, k + 1) != "" && Chosen(v, k + 1)[0] == '{'
  {
    hide Kept;
    ChosenBegins(v, k + 1);
    if Kept(v, k) && v[k] == '$' && Chosen(v, k + 1) != "" && Chosen(v, k + 1)[0] == '{' {
      var j: nat :| NextKept(v, k + 1, j) && v[j] == '{';
      assert Joins(v, k, j);
    }
  }

  /** Sanitising leaves an opening mark exactly when a kept dollar sign is followed, among what is kept,
      by a kept opening brace. */
  lemma OpeningIsLeftExactly(v: string)
    ensures Contains(Sanitise(v), "${") <==> exists i: nat, j: nat :: Joins(v, i, j)
  {
    SanitiseKeepsTheKept(v);
    ChosenOpens(v, 0);
    NoOpenIff(Sanitise(v));
  }

  // ---------- values that are left alone ----------

  lemma {:induction false} ChosenWhole(v: string, k: nat)
    requires k <= |v|
    ensures |Chosen(v, k)| <= |v| - k
    ensures |Chosen(v, k)| == |v| - k <==> forall m :: k <= m < |v| ==> Kept(v, m)
    ensures (forall m :: k <= m < |v| ==> Kept(v, m)) ==> Chosen(v, k) == v[k..]
    decreases |v| - k
  {
    hide Kept;
    if k < |v| {
      ChosenWhole(v, k + 1);
      assert v[k..] == [v[k]] + v[k + 1..];
    }
  }

  /** A value is left alone exactly when everything in it is kept. */
  lemma LeftAloneExactly(v: string)
    ensures Sanitise(v) == v <==> forall m :: 0 <= m < |v| ==> Kept(v, m)
  {
    SanitiseKeepsTheKept(v);
    ChosenWhole(v, 0);
    assert v[0..] == v;
  }
}
