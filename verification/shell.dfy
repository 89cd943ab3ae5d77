/** The answer parsing of the console program (src/main.cpp): which answers mean
    "no preference", how a comma-separated answer becomes a list, and how the three
    answers of a filter prompt become a Query. Reading the lines from the terminal
    is not modelled; the lines are parameters. */
module Shell {
  import opened Util
  import opened Positions
  import opened Catalog

  /** The answers, once trimmed and folded, that mean "skip this question". */
  const SkipWords: set<string> := {"", "blank", "none", "n/a", "na", "skip"}

  /** is_skip_token: the answer, trimmed and then folded, is one of the skip words. */
  predicate IsSkipToken(s: string)
  {
    ToLower(Trim(s)) in SkipWords
  }

  /** Spaces around an answer never change whether it is a skip word. */
  lemma {:induction false} SkipTokenIgnoresPadding(pre: string, s: string, post: string)
    requires AllSpace(pre) && AllSpace(post)
    ensures IsSkipToken(pre + s + post) <==> IsSkipToken(s)
  {
    TrimIgnoresPadding(pre, s, post);
  }

  /** Case never changes whether an answer is a skip word. */
  lemma {:induction false} SkipTokenIgnoresCase(s: string)
    ensures IsSkipToken(ToLower(s)) <==> IsSkipToken(s)
  {
    TrimToLowerCommute(s);
    ToLowerIdempotent(Trim(s));
  }

  /** A blank answer (Enter alone, or only spaces) is a skip. An answer that is not
      a skip has something left after trimming. */
  lemma {:induction false} BlankIsSkip(s: string)
    ensures AllSpace(s) ==> IsSkipToken(s)
    ensures !IsSkipToken(s) ==> Trim(s) != ""
  {
    TrimEmptyIffAllSpace(s);
  }

  // ---------------------------------------------------------------------------
  // parse_csv

  /** The comma-separated pieces of `s`, untrimmed, empty ones included: there is
      always one more piece than there are commas. */
  function Split(s: string): (segs: seq<string>)
    ensures |segs| >= 1
    decreases |s|
  {
    if s == [] then [""]
    else
      var prev := Split(s[..|s| - 1]);
      var c := s[|s| - 1];
      if c == ',' then prev + [""]
      else prev[..|prev| - 1] + [prev[|prev| - 1] + [c]]
  }

  /** The pieces put back together with a comma between each two. */
  function Join(segs: seq<string>): string
    requires |segs| >= 1
    decreases |segs|
  {
    if |segs| == 1 then segs[0]
    else Join(segs[..|segs| - 1]) + "," + segs[|segs| - 1]
  }

  /** The number of commas in `s`. */
  function Commas(s: string): nat
  {
    if s == [] then 0 else Commas(s[..|s| - 1]) + (if s[|s| - 1] == ',' then 1 else 0)
  }

  /** One more character of input: a comma closes the current piece and opens an
      empty one, anything else extends the current piece. */
  lemma {:induction false} SplitStep(s: string, i: nat, head: seq<string>, cur: string)
    requires i < |s| && Split(s[..i]) == head + [cur]
    ensures Split(s[..i + 1]) ==
      if s[i] == ',' then (head + [cur]) + [""] else head + [cur + [s[i]]]
  {
    assert s[..i + 1][..i] == s[..i];
    var prev := head + [cur];
    assert prev[..|prev| - 1] == head;
  }

  /** Joining one more piece puts a comma before it. */
  lemma {:induction false} JoinAppend(segs: seq<string>, x: string)
    requires |segs| >= 1
    ensures Join(segs + [x]) == Join(segs) + "," + x
  {
    assert (segs + [x])[..|segs|] == segs;
  }

  /** No piece holds a comma. */
  lemma {:induction false} SplitNoComma(s: string)
    ensures forall seg :: seg in Split(s) ==> ',' !in seg
    decreases |s|
  {
    if s != [] {
      var n := |s| - 1;
      var prev := Split(s[..n]);
      SplitNoComma(s[..n]);
      var head, cur := prev[..|prev| - 1], prev[|prev| - 1];
      assert prev == head + [cur];
      SplitStep(s, n, head, cur);
      assert s[..n + 1] == s;
      assert cur in prev;
      if s[n] != ',' {
        assert ',' !in cur + [s[n]];
        forall seg | seg in Split(s) ensures ',' !in seg {
          assert seg in head || seg == cur + [s[n]];
        }
      }
    }
  }

  /** There is one piece more than there are commas. */
  lemma {:induction false} SplitCount(s: string)
    ensures |Split(s)| == Commas(s) + 1
    decreases |s|
  {
    if s != [] {
      SplitCount(s[..|s| - 1]);
    }
  }

  /** `last` is what follows the final comma of `s`: a suffix of `s` that is
      either all of it or preceded by a comma. */
  predicate FinalPiece(s: string, last: string)
  {
    |last| <= |s| && s[|s| - |last|..] == last && (|last| < |s| ==> s[|s| - |last| - 1] == ',')
  }

  /** A character other than a comma extends the final piece. */
  lemma {:induction false} FinalPieceExtend(s: string, n: nat, cur: string)
    requires n < |s| && FinalPiece(s[..n], cur)
    ensures FinalPiece(s[..n + 1], cur + [s[n]])
  {
    assert s[..n + 1][n + 1 - (|cur| + 1)..] == s[..n][n - |cur|..] + [s[n]];
  }

  /** One more character of input keeps the last piece the final one. */
  lemma {:induction false} SplitLastStep(s: string, i: nat, head: seq<string>, cur: string)
    requires 0 < i <= |s| && Split(s[..i - 1]) == head + [cur] && FinalPiece(s[..i - 1], cur)
    ensures FinalPiece(s[..i], Split(s[..i])[|Split(s[..i])| - 1])
  {
    SplitStep(s, i - 1, head, cur);
    if s[i - 1] != ',' {
      FinalPieceExtend(s, i - 1, cur);
    }
  }

  /** `SplitLastPiece` for every prefix of `s`, by induction on its length. */
  lemma {:induction false} SplitLastPrefix(s: string, i: nat)
    requires i <= |s|
    ensures FinalPiece(s[..i], Split(s[..i])[|Split(s[..i])| - 1])
    decreases i
  {
    if i == 0 {
      assert s[..i] == [];
    } else {
      SplitLastPrefix(s, i - 1);
      var prev := Split(s[..i - 1]);
      var head, cur := prev[..|prev| - 1], prev[|prev| - 1];
      assert prev == head + [cur];
      SplitLastStep(s, i, head, cur);
    }
  }

  /** The last piece is what follows the final comma (it holds no comma, as
      `SplitNoComma` says of every piece). */
  lemma {:induction false} SplitLastPiece(s: string)
    ensures FinalPiece(s, Split(s)[|Split(s)| - 1])
  {
    SplitLastPrefix(s, |s|);
    assert s[..|s|] == s;
  }

  /** Splitting loses nothing: the pieces joined with commas give `s` back. */
  lemma {:induction false} SplitJoin(s: string)
    ensures Join(Split(s)) == s
    decreases |s|
  {
    if s != [] {
      var n := |s| - 1;
      var prev := Split(s[..n]);
      SplitJoin(s[..n]);
      var head, cur := prev[..|prev| - 1], prev[|prev| - 1];
      assert prev == head + [cur];
      if s[n] == ',' {
        calc {
          Join(Split(s));
          { assert s[..n + 1] == s; }
          Join(Split(s[..n + 1]));
          { SplitStep(s, n, head, cur); }
          Join(prev + [""]);
          { SplitJoinComma(s[..n], prev); }
          s[..n] + [','];
          { assert s == s[..n] + [s[n]]; }
          s;
        }
      } else {
        calc {
          Join(Split(s));
          { assert s[..n + 1] == s; }
          Join(Split(s[..n + 1]));
          { SplitStep(s, n, head, cur); }
          Join(head + [cur + [s[n]]]);
          { SplitJoinChar(s[..n], head, cur, s[n]); }
          s[..n] + [s[n]];
          { assert s == s[..n] + [s[n]]; }
          s;
        }
      }
    }
  }

  /** The comma step of SplitJoin. */
  lemma {:induction false} SplitJoinComma(t: string, prev: seq<string>)
    requires |prev| >= 1 && Join(prev) == t
    ensures Join(prev + [""]) == t + [',']
  {
    JoinAppend(prev, "");
  }

  /** The other step of SplitJoin: the character extends the last piece. */
  lemma {:induction false} SplitJoinChar(t: string, head: seq<string>, cur: string, c: char)
    requires Join(head + [cur]) == t
    ensures Join(head + [cur + [c]]) == t + [c]
  {
    if head == [] {
      assert head + [cur] == [cur];
      assert head + [cur + [c]] == [cur + [c]];
    } else {
      JoinAppend(head, cur);
      JoinAppend(head, cur + [c]);
    }
  }

  /** Joining comma-free pieces and splitting again gives the same pieces. */
  lemma {:induction false} JoinSplit(segs: seq<string>)
    requires |segs| >= 1
    requires forall seg :: seg in segs ==> ',' !in seg
    ensures Split(Join(segs)) == segs
    decreases |segs|
  {
    if |segs| == 1 {
      SplitPiece(segs[0]);
    } else {
      var n := |segs| - 1;
      JoinSplit(segs[..n]);
      assert segs[n] in segs;
      SplitAppendPiece(Join(segs[..n]), segs[n]);
      assert segs == segs[..n] + [segs[n]];
    }
  }

  /** A prefix of a comma-free string is comma-free. */
  lemma {:induction false} NoCommaPrefix(w: string, n: nat)
    requires ',' !in w && n <= |w|
    ensures ',' !in w[..n]
  {
    forall k | 0 <= k < n ensures w[..n][k] != ',' {
      assert w[..n][k] == w[k];
    }
  }

  /** A comma-free string is a single piece. */
  lemma {:induction false} SplitPiece(w: string)
    requires ',' !in w
    ensures Split(w) == [w]
    decreases |w|
  {
    if w != [] {
      var n := |w| - 1;
      var u := w[..n];
      NoCommaPrefix(w, n);
      SplitPiece(u);
      assert w[n] != ',' by { assert w[n] in w; }
      calc {
        Split(w);
        { assert w[..n + 1] == w; }
        Split(w[..n + 1]);
        { SplitStep(w, n, [], u); }
        [] + [u + [w[n]]];
        { assert u + [w[n]] == w; }
        [w];
      }
    }
  }

  /** A character other than a comma extends the last piece. */
  lemma {:induction false} SplitAppendChar(u: string, c: char, head: seq<string>, cur: string)
    requires c != ',' && Split(u) == head + [cur]
    ensures Split(u + [c]) == head + [cur + [c]]
  {
    assert (u + [c])[..|u|] == u;
  }

  /** Appending a comma and a comma-free piece adds that piece to the split. */
  lemma {:induction false} SplitAppendPiece(s: string, w: string)
    requires ',' !in w
    ensures Split(s + "," + w) == Split(s) + [w]
    decreases |w|
  {
    if w == [] {
      assert (s + "," + w)[..|s|] == s;
    } else {
      var n := |w| - 1;
      assert w[n] in w;
      assert ',' !in w[..n] by {
        forall k | 0 <= k < n ensures w[..n][k] != ',' { assert w[..n][k] == w[k]; }
      }
      calc {
        Split(s + "," + w);
        { assert s + "," + w == (s + "," + w[..n]) + [w[n]]; }
        Split((s + "," + w[..n]) + [w[n]]);
        { SplitAppendPiece(s, w[..n]);
          SplitAppendChar(s + "," + w[..n], w[n], Split(s), w[..n]); }
        Split(s) + [w[..n] + [w[n]]];
        { assert w[..n] + [w[n]] == w; }
        Split(s) + [w];
      }
    }
  }

  /** Each piece trimmed, the empty ones dropped, the rest kept in order. */
  function Clean(segs: seq<string>): seq<string>
    decreases |segs|
  {
    if segs == [] then []
    else
      var prefix := Clean(segs[..|segs| - 1]);
      var t := Trim(segs[|segs| - 1]);
      if t == "" then prefix else prefix + [t]
  }

  /** What parse_csv returns: nothing for a skip answer, otherwise the trimmed
      non-empty comma-separated pieces. */
  function CsvFields(s: string): seq<string>
  {
    if IsSkipToken(s) then [] else Clean(Split(s))
  }

  /** A slice of a comma-free string is comma-free. */
  lemma {:induction false} NoCommaSlice(w: string, lo: nat, hi: nat)
    requires ',' !in w && lo <= hi <= |w|
    ensures ',' !in w[lo..hi]
  {
    forall k | 0 <= k < hi - lo ensures w[lo..hi][k] != ',' {
      assert w[lo..hi][k] == w[lo + k];
    }
  }

  /** A trimmed piece holds no comma when the piece held none. */
  lemma {:induction false} TrimKeepsNoComma(seg: string)
    requires ',' !in seg
    ensures ',' !in Trim(seg)
  {
    TrimIsSlice(seg);
    var lo := FirstNonSpace(seg);
    NoCommaSlice(seg, lo, ContentEnd(seg, lo));
  }

  /** Cleaning one more piece appends its trimmed form unless that is empty. */
  lemma {:induction false} CleanAppend(segs: seq<string>, x: string)
    ensures Clean(segs + [x]) == if Trim(x) == "" then Clean(segs) else Clean(segs) + [Trim(x)]
  {
    assert (segs + [x])[..|segs|] == segs;
  }

  /** Cleaning never yields more items than pieces. */
  lemma {:induction false} CleanLength(segs: seq<string>)
    ensures |Clean(segs)| <= |segs|
    decreases |segs|
  {
    if segs != [] {
      CleanLength(segs[..|segs| - 1]);
    }
  }

  /** Cleaning keeps exactly the non-empty trimmed pieces. */
  lemma {:induction false} CleanMembers(segs: seq<string>)
    ensures forall f :: f in Clean(segs) <==> f != "" && exists seg :: seg in segs && Trim(seg) == f
    decreases |segs|
  {
    if segs != [] {
      var n := |segs| - 1;
      var head, last := segs[..n], segs[n];
      CleanMembers(head);
      assert segs == head + [last];
      CleanAppend(head, last);
      forall f ensures f in Clean(segs) <==> f != "" && exists seg :: seg in segs && Trim(seg) == f {
        if f != "" && (exists seg :: seg in segs && Trim(seg) == f) {
          var seg :| seg in segs && Trim(seg) == f;
          if seg != last {
            assert seg in head;
          }
        }
      }
    }
  }

  /** Every item of a cleaning is trimmed, and comma-free when the pieces were. */
  lemma {:induction false} CleanShape(segs: seq<string>)
    ensures forall f :: f in Clean(segs) ==> Trim(f) == f
    ensures (forall seg :: seg in segs ==> ',' !in seg) ==> forall f :: f in Clean(segs) ==> ',' !in f
    decreases |segs|
  {
    if segs != [] {
      var n := |segs| - 1;
      var head, last := segs[..n], segs[n];
      CleanShape(head);
      assert segs == head + [last];
      CleanAppend(head, last);
      TrimIdempotent(last);
      if forall seg :: seg in segs ==> ',' !in seg {
        assert last in segs;
        TrimKeepsNoComma(last);
        assert forall seg :: seg in head ==> seg in segs;
      }
    }
  }

  /** Every piece trimmed, empty ones included. */
  function Trimmed(segs: seq<string>): (ts: seq<string>)
    ensures |ts| == |segs|
  {
    seq(|segs|, i requires 0 <= i < |segs| => Trim(segs[i]))
  }

  /** The positions of the pieces that are not blank once trimmed. */
  ghost function KeptPieces(segs: seq<string>): set<int>
  {
    set i | 0 <= i < |segs| && Trim(segs[i]) != ""
  }

  /** One more piece adds its position exactly when it is not blank. */
  lemma {:induction false} KeptPiecesStep(segs: seq<string>)
    requires segs != []
    ensures var n := |segs| - 1;
      KeptPieces(segs) == KeptPieces(segs[..n]) + (if Trim(segs[n]) != "" then {n} else {})
  {
    var n := |segs| - 1;
    forall i ensures i in KeptPieces(segs) <==>
      i in KeptPieces(segs[..n]) + (if Trim(segs[n]) != "" then {n} else {})
    {
      if 0 <= i < n {
        assert segs[..n][i] == segs[i];
      }
    }
  }

  /** Trimming one more piece appends its trimmed form. */
  lemma {:induction false} TrimmedStep(segs: seq<string>)
    requires segs != []
    ensures Trimmed(segs) == Trimmed(segs[..|segs| - 1]) + [Trim(segs[|segs| - 1])]
  {
    var n := |segs| - 1;
    forall i | 0 <= i < n ensures Trimmed(segs)[i] == Trimmed(segs[..n])[i] {
      assert segs[..n][i] == segs[i];
    }
  }

  /** Cleaning keeps order: the items are a subsequence of the trimmed pieces. */
  lemma {:induction false} CleanKeepsOrder(segs: seq<string>)
    ensures IsSubsequence(Clean(segs), Trimmed(segs))
    decreases |segs|
  {
    if segs != [] {
      var n := |segs| - 1;
      var head, t := segs[..n], Trim(segs[n]);
      CleanKeepsOrder(head);
      CleanAppend(head, segs[n]);
      TrimmedStep(segs);
      assert segs == head + [segs[n]];
      if t != "" {
        SubsequenceAppendBoth(Clean(head), Trimmed(head), t);
      } else {
        SubsequenceExtend(Clean(head), Trimmed(head), t);
      }
    }
  }

  /** Cleaning keeps multiplicity: one item per non-blank piece, so "a,a" gives
      two items. With CleanKeepsOrder and CleanMembers this fixes the result: the
      trimmed pieces in their order with exactly the blank ones deleted. */
  lemma {:induction false} CleanCount(segs: seq<string>)
    ensures |Clean(segs)| == |KeptPieces(segs)|
    decreases |segs|
  {
    if segs != [] {
      var n := |segs| - 1;
      var head := segs[..n];
      CleanCount(head);
      assert segs == head + [segs[n]];
      var kept := KeptPieces(head);
      assert n !in kept;
      if Trim(segs[n]) != "" {
        calc {
          |Clean(segs)|;
          { CleanAppend(head, segs[n]); }
          |Clean(head)| + 1;
          |kept + {n}|;
          { KeptPiecesStep(segs); }
          |KeptPieces(segs)|;
        }
      } else {
        calc {
          |Clean(segs)|;
          { CleanAppend(head, segs[n]); }
          |Clean(head)|;
          { KeptPiecesStep(segs); }
          |KeptPieces(segs)|;
        }
      }
    }
  }

  /** parse_csv's result: every item is non-empty, trimmed and comma-free; there are
      no more items than commas plus one; and each non-empty trimmed piece appears. */
  lemma {:induction false} CsvFieldsSpec(s: string)
    ensures forall f :: f in CsvFields(s) ==> f != "" && Trim(f) == f && ',' !in f
    ensures |CsvFields(s)| <= Commas(s) + 1
    ensures !IsSkipToken(s) ==>
      forall seg :: seg in Split(s) && Trim(seg) != "" ==> Trim(seg) in CsvFields(s)
    ensures !IsSkipToken(s) ==>
      IsSubsequence(CsvFields(s), Trimmed(Split(s))) && |CsvFields(s)| == |KeptPieces(Split(s))|
  {
    SplitNoComma(s);
    SplitCount(s);
    CleanLength(Split(s));
    CleanMembers(Split(s));
    CleanShape(Split(s));
    CleanKeepsOrder(Split(s));
    CleanCount(Split(s));
  }

  /** parse_csv: a skip answer gives no items; otherwise the answer is scanned once,
      each piece is trimmed when its comma (or the end) is reached, and the non-empty
      ones are kept. */
  method ParseCsv(s: string) returns (out: seq<string>)
    ensures out == CsvFields(s)
    ensures forall f :: f in out ==> f != "" && Trim(f) == f && ',' !in f
  {
    out := [];
    if IsSkipToken(s) {
      CsvFieldsSpec(s);
      return;
    }
    var cur := "";
    ghost var head: seq<string> := [];
    var i := 0;
    while i < |s|
      invariant i <= |s|
      invariant Split(s[..i]) == head + [cur]
      invariant out == Clean(head)
    {
      var ch := s[i];
      SplitStep(s, i, head, cur);
      if ch == ',' {
        var t := TrimInPlace(cur);
        CleanAppend(head, cur);
        if t != "" {
          out := out + [t];
        }
        head := head + [cur];
        cur := "";
      } else {
        cur := cur + [ch];
      }
      i := i + 1;
    }
    assert s[..i] == s;
    var t := TrimInPlace(cur);
    CleanAppend(head, cur);
    if t != "" {
      out := out + [t];
    }
    CsvFieldsSpec(s);
  }

  // ---------------------------------------------------------------------------
  // prompt_query

  /** The query built from the three answers: the type answer trimmed unless it is a
      skip, and the two lists parsed. */
  function QueryFromAnswers(typeAnswer: string, attrsAnswer: string, avoidAnswer: string): Query
  {
    Query(if IsSkipToken(typeAnswer) then "" else Trim(typeAnswer),
          CsvFields(attrsAnswer), CsvFields(avoidAnswer))
  }

  /** prompt_query, given the three lines the user typed. The type is left blank
      exactly when its answer is a skip, and no list item is blank. */
  method PromptQuery(typeAnswer: string, attrsAnswer: string, avoidAnswer: string) returns (q: Query)
    ensures q == QueryFromAnswers(typeAnswer, attrsAnswer, avoidAnswer)
    ensures q.mealType == "" <==> IsSkipToken(typeAnswer)
    ensures forall t :: t in q.requiredTags ==> t != "" && Trim(t) == t && ',' !in t
    ensures forall a :: a in q.avoidAllergens ==> a != "" && Trim(a) == a && ',' !in a
  {
    var mealType := "";
    if !IsSkipToken(typeAnswer) {
      BlankIsSkip(typeAnswer);
      mealType := TrimInPlace(typeAnswer);
    }
    var tags := ParseCsv(attrsAnswer);
    var avoid := ParseCsv(avoidAnswer);
    q := Query(mealType, tags, avoid);
  }

  /** Skipping all three questions asks for the whole catalogue. */
  lemma {:induction false} AllSkippedSelectsAll(meals: seq<Meal>, typeAnswer: string, attrsAnswer: string, avoidAnswer: string)
    requires IsSkipToken(typeAnswer) && IsSkipToken(attrsAnswer) && IsSkipToken(avoidAnswer)
    ensures Select(meals, QueryFromAnswers(typeAnswer, attrsAnswer, avoidAnswer)) == AllPositions(|meals|)
  {
    EmptyQuerySelectsAll(meals);
  }

  /** A skip word in another case with spaces around it is still a skip. */
  lemma {:induction false} SkipWordExample()
    ensures IsSkipToken(" N/A ")
  {
    calc {
      ToLower(Trim(" N/A "));
      { assert " " + "N/A" + " " == " N/A ";
        TrimOfPadded(" ", "N/A", " "); }
      ToLower("N/A");
      "n/a";
    }
  }

  /** An answer with a comma left after trimming is a list, never a skip, even when
      it starts with a skip word (`ListAnswerExample` works one through). */
  lemma {:induction false} ListAnswerIsNotSkip(s: string)
    requires ',' in Trim(s)
    ensures !IsSkipToken(s)
    ensures CsvFields(s) == Clean(Split(s))
  {
    var k :| 0 <= k < |Trim(s)| && Trim(s)[k] == ',';
    var folded := ToLower(Trim(s));
    assert folded[k] == ',';
    forall w | w in SkipWords ensures folded != w {
      assert ',' !in w;
    }
  }

  /** How the example answer below is put together. */
  lemma {:induction false} ExampleAnswerPieces()
    ensures "none, peanuts" == "none" + "," + " peanuts"
    ensures " peanuts" == " " + "peanuts" + ""
    ensures "none" == "" + "none" + ""
    ensures "none, peanuts" == "" + "none, peanuts" + ""
    ensures ',' !in "none" && ',' !in " peanuts"
  {
  }

  /** The example answer is not a skip: it still has its comma after trimming. */
  lemma {:induction false} ExampleAnswerNotSkip()
    ensures !IsSkipToken("none, peanuts")
  {
    ExampleAnswerPieces();
    TrimOfPadded("", "none, peanuts", "");
    assert Trim("none, peanuts")[4] == ',';
    ListAnswerIsNotSkip("none, peanuts");
  }

  /** The example answer splits into two pieces at its one comma. */
  lemma {:induction false} ExampleAnswerSplit()
    ensures Split("none, peanuts") == ["none", " peanuts"]
  {
    ExampleAnswerPieces();
    calc {
      Split("none, peanuts");
      Split("none" + "," + " peanuts");
      { SplitAppendPiece("none", " peanuts"); }
      Split("none") + [" peanuts"];
      { SplitPiece("none"); }
      ["none", " peanuts"];
    }
  }

  /** Trimming the two pieces of the example answer. */
  lemma {:induction false} ExampleAnswerTrims()
    ensures Trim("none") == "none" && Trim(" peanuts") == "peanuts"
  {
    ExampleAnswerPieces();
    TrimOfPadded(" ", "peanuts", "");
    TrimOfPadded("", "none", "");
  }

  /** Cleaning the two pieces trims the space off the second. */
  lemma {:induction false} ExampleAnswerClean()
    ensures Clean(["none", " peanuts"]) == ["none", "peanuts"]
  {
    ExampleAnswerTrims();
    calc {
      Clean(["none", " peanuts"]);
      { assert ["none", " peanuts"] == ["none"] + [" peanuts"];
        CleanAppend(["none"], " peanuts"); }
      Clean(["none"]) + ["peanuts"];
      { assert ["none"] == [] + ["none"];
        CleanAppend([], "none"); }
      ["none", "peanuts"];
    }
  }

  /** "none, peanuts" is a list of two items, not the skip word "none". */
  lemma {:induction false} ListAnswerExample()
    ensures CsvFields("none, peanuts") == ["none", "peanuts"]
  {
    ExampleAnswerNotSkip();
    ExampleAnswerSplit();
    ExampleAnswerClean();
  }
}
