/**
 * The knowledge-document parser `extract_qa` of app.py. The document is the
 * sequence of its paragraph texts; the result is the sequence of
 * (question, answer) pairs in document order.
 *
 * `Sections` is the reference definition, stated block by block over the
 * cleaned lines (each paragraph stripped, blank ones dropped): every question
 * line owns the lines up to the next question line, and it yields a pair when
 * it owns at least one. `ExtractQa` is the source's two-variable state
 * machine, proved to compute `QaPairs`.
 */
module QaParser {
  import opened Text

  type QaPair = (string, string)

  /** `t.lower().startswith("q")`: only 'q' and 'Q' lower-case to a string
      that starts with 'q'. */
  predicate IsQuestionLine(t: string) {
    |t| > 0 && (t[0] == 'q' || t[0] == 'Q')
  }

  /** `t.lower().startswith("a")`. */
  predicate IsAnswerLine(t: string) {
    |t| > 0 && (t[0] == 'a' || t[0] == 'A')
  }

  predicate NoQuestion(ts: seq<string>) {
    forall i :: 0 <= i < |ts| ==> !IsQuestionLine(ts[i])
  }

  /** What one paragraph contributes: its stripped text, unless that is empty. */
  function Kept(paragraph: string): (ts: seq<string>)
  {
    if AllSpace(paragraph) then [] else [Strip(paragraph)]
  }

  /** The stripped paragraphs that are not blank, in order. */
  function Clean(paragraphs: seq<string>): (ts: seq<string>)
    ensures |ts| <= |paragraphs|
    ensures forall i :: 0 <= i < |ts| ==> ts[i] != "" && Trimmed(ts[i])
  {
    if paragraphs == [] then []
    else Clean(paragraphs[..|paragraphs| - 1]) + Kept(paragraphs[|paragraphs| - 1])
  }

  /** `ts` is empty or starts with a question line: a place where a document
      can be cut without moving a body line to another question. */
  predicate OpensWithQuestion(ts: seq<string>) {
    ts == [] || IsQuestionLine(ts[0])
  }

  /** The index of the last question line below `end`, or -1 when there is none. */
  function LastQuestionBelow(ts: seq<string>, end: nat): (k: int)
    requires end <= |ts|
    ensures -1 <= k < end
    ensures k >= 0 ==> IsQuestionLine(ts[k])
    ensures forall i :: k < i < end ==> !IsQuestionLine(ts[i])
    decreases end
  {
    if end == 0 then -1
    else if IsQuestionLine(ts[end - 1]) then end - 1
    else LastQuestionBelow(ts, end - 1)
  }

  /** The index of the last question line, or -1 when there is none. */
  function LastQuestion(ts: seq<string>): (k: int)
    ensures -1 <= k < |ts|
    ensures k >= 0 ==> IsQuestionLine(ts[k])
    ensures forall i :: k < i < |ts| ==> !IsQuestionLine(ts[i])
  {
    LastQuestionBelow(ts, |ts|)
  }

  /** The pair a question contributes given its body lines: none without a
      body, otherwise the body joined by single spaces. */
  function Emit(q: string, body: seq<string>): seq<QaPair> {
    if body == [] then [] else [(q, Join(body, " "))]
  }

  /** Reference definition over cleaned lines: the last question line owns
      every line after it, and the lines before it are read the same way.
      Lines before the first question line belong to no question. */
  function Sections(ts: seq<string>): seq<QaPair>
    decreases |ts|
  {
    var k := LastQuestion(ts);
    if k < 0 then [] else Sections(ts[..k]) + Emit(ts[k], ts[k + 1..])
  }

  /** What `extract_qa` returns for a document with these paragraphs. */
  function QaPairs(paragraphs: seq<string>): seq<QaPair> {
    Sections(Clean(paragraphs))
  }

  /** `extract_qa` (reading the .docx file aside): `q` is the open question,
      with "" standing for Python's `None` (both are falsy, and a real question
      is never empty), `a` the body lines gathered so far. */
  method ExtractQa(paragraphs: seq<string>) returns (pairs: seq<QaPair>)
    ensures pairs == QaPairs(paragraphs)
  {
    pairs := [];
    var q: string, a: seq<string> := "", [];
    ghost var before: seq<string> := [];
    for i := 0 to |paragraphs|
      invariant q == "" ==> pairs == [] && NoQuestion(Clean(paragraphs[..i]))
      invariant q != "" ==> IsQuestionLine(q) && NoQuestion(a)
      invariant q != "" ==> Clean(paragraphs[..i]) == before + [q] + a
      invariant q != "" ==> pairs == Sections(before)
    {
      CleanNext(paragraphs, i);
      var t := Strip(paragraphs[i]);
      if t == "" {
        RightIdentity(Clean(paragraphs[..i]));
        continue;
      }
      if IsQuestionLine(t) {
        if q != "" && a != [] {
          pairs := pairs + [(q, Join(a, " "))];
        }
        if q != "" {
          AppendSection(before, q, a);
          before := before + [q] + a;
        } else {
          before := Clean(paragraphs[..i]);
          NoSections(before);
        }
        q, a := t, [];
        RightIdentity(before + [q]);
      } else if IsAnswerLine(t) || q != "" {
        if q != "" {
          Associative(before + [q], a, [t]);
          NoQuestionAppend(a, t);
        }
        a := a + [t];
      } else {
        NoQuestionAppend(Clean(paragraphs[..i]), t);
      }
    }
    assert paragraphs[..|paragraphs|] == paragraphs;
    if q != "" && a != [] {
      pairs := pairs + [(q, Join(a, " "))];
    }
    if q != "" {
      AppendSection(before, q, a);
    } else {
      NoSections(Clean(paragraphs));
    }
  }

  // ---------------------------------------------------------------------
  // Structure of the reference definition
  // ---------------------------------------------------------------------

  lemma LastQuestionIs(ts: seq<string>, k: int)
    requires -1 <= k < |ts|
    requires k >= 0 ==> IsQuestionLine(ts[k])
    requires forall i :: k < i < |ts| ==> !IsQuestionLine(ts[i])
    ensures LastQuestion(ts) == k
  {
  }

  /** A document without a question line yields nothing. */
  lemma NoSections(ts: seq<string>)
    requires NoQuestion(ts)
    ensures Sections(ts) == []
  {
    LastQuestionIs(ts, -1);
  }

  lemma NoQuestionAppend(ts: seq<string>, t: string)
    requires NoQuestion(ts) && !IsQuestionLine(t)
    ensures NoQuestion(ts + [t])
  {
    forall i | 0 <= i < |ts| + 1 ensures !IsQuestionLine((ts + [t])[i]) {
      if i < |ts| {
        assert (ts + [t])[i] == ts[i];
      }
    }
  }

  /** Closing the open question: the step `ExtractQa` takes at the next
      question line and at the end of the document. */
  lemma AppendSection(xs: seq<string>, q: string, a: seq<string>)
    requires IsQuestionLine(q) && NoQuestion(a)
    ensures Sections(xs + [q] + a) == Sections(xs) + Emit(q, a)
  {
    var ts := xs + [q] + a;
    forall i | |xs| < i < |ts| ensures !IsQuestionLine(ts[i]) {
      assert ts[i] == a[i - |xs| - 1];
    }
    LastQuestionIs(ts, |xs|);
    assert ts[..|xs|] == xs;
    assert ts[|xs| + 1..] == a;
  }

  /** A document with a question line is its last question line with the
      lines before and after it. */
  lemma SplitAtLastQuestion(ys: seq<string>) returns (init: seq<string>, q: string, body: seq<string>)
    requires LastQuestion(ys) >= 0
    ensures ys == init + [q] + body && |init| == LastQuestion(ys)
    ensures IsQuestionLine(q) && NoQuestion(body)
    ensures OpensWithQuestion(ys) ==> OpensWithQuestion(init)
  {
    var k := LastQuestion(ys);
    init, q, body := ys[..k], ys[k], ys[k + 1..];
    assert ys == init + [q] + body;
  }

  /** Lines without a question contribute nothing, wherever they stand in front. */
  lemma {:induction false} SectionsSkipsLeading(n: seq<string>, ys: seq<string>)
    requires NoQuestion(n)
    ensures Sections(n + ys) == Sections(ys)
    decreases |ys|
  {
    if LastQuestion(ys) < 0 {
      var ts := n + ys;
      forall i | 0 <= i < |ts| ensures !IsQuestionLine(ts[i]) {
        if i >= |n| {
          assert ts[i] == ys[i - |n|];
        }
      }
      LastQuestionIs(ts, -1);
    } else {
      var init, q, body := SplitAtLastQuestion(ys);
      AppendSection(init, q, body);
      Associative(n, init + [q], body);
      Associative(n, init, [q]);
      AppendSection(n + init, q, body);
      SectionsSkipsLeading(n, init);
    }
  }

  /** The document splits at every question line: what precedes it and what
      follows are parsed independently. */
  lemma {:induction false} SectionsSplit(xs: seq<string>, ys: seq<string>)
    requires OpensWithQuestion(ys)
    ensures Sections(xs + ys) == Sections(xs) + Sections(ys)
    decreases |ys|
  {
    if ys == [] {
      assert xs + ys == xs;
    } else {
      var init, q, body := SplitAtLastQuestion(ys);
      SectionsSplit(xs, init);
      SplitStep(xs, init, q, body);
    }
  }

  /** One inductive step of `SectionsSplit`: a closing section keeps the split. */
  lemma SplitStep(xs: seq<string>, init: seq<string>, q: string, body: seq<string>)
    requires IsQuestionLine(q) && NoQuestion(body)
    requires Sections(xs + init) == Sections(xs) + Sections(init)
    ensures Sections(xs + (init + [q] + body)) == Sections(xs) + Sections(init + [q] + body)
  {
    Associative(xs, init + [q], body);
    Associative(xs, init, [q]);
    AppendSection(xs + init, q, body);
    AppendSection(init, q, body);
    Associative(Sections(xs), Sections(init), Emit(q, body));
  }

  /** Plain sequence facts, called as proof hints to keep the solver's work
      small; they state nothing about the chatbot. */
  lemma RightIdentity<T>(a: seq<T>)
    ensures a + [] == a
  {
  }

  lemma Associative<T>(a: seq<T>, b: seq<T>, c: seq<T>)
    ensures (a + b) + c == a + (b + c)
  {
  }

  // ---------------------------------------------------------------------
  // Properties of extract_qa, stated on QaPairs
  // ---------------------------------------------------------------------

  /** Reading one more paragraph. */
  lemma CleanNext(paragraphs: seq<string>, i: nat)
    requires i < |paragraphs|
    ensures Clean(paragraphs[..i + 1]) == Clean(paragraphs[..i]) + Kept(paragraphs[i])
    ensures Kept(paragraphs[i]) == (if Strip(paragraphs[i]) == "" then [] else [Strip(paragraphs[i])])
  {
    assert paragraphs[..i + 1][..i] == paragraphs[..i];
  }

  lemma {:induction false} CleanAppend(ps: seq<string>, rs: seq<string>)
    ensures Clean(ps + rs) == Clean(ps) + Clean(rs)
    decreases |rs|
  {
    if rs == [] {
      assert ps + rs == ps;
    } else {
      var init, last := rs[..|rs| - 1], rs[|rs| - 1];
      var all := ps + rs;
      assert all[..|all| - 1] == ps + init;
      assert all[|all| - 1] == last;
      assert Clean(all) == Clean(ps + init) + Kept(last);
      assert Clean(rs) == Clean(init) + Kept(last);
      CleanAppend(ps, init);
    }
  }

  /** Blank and white-space-only paragraphs do not change the result. */
  lemma BlankParagraphIgnored(ps: seq<string>, blank: string, rs: seq<string>)
    requires AllSpace(blank)
    ensures QaPairs(ps + [blank] + rs) == QaPairs(ps + rs)
  {
    CleanAppend(ps + [blank], rs);
    CleanAppend(ps, [blank]);
    CleanAppend(ps, rs);
    CleanSingle(blank);
    RightIdentity(Clean(ps));
  }

  /** Paragraphs before the first question, answer-like ones included, never
      reach the result: `a` is reset when the first question opens, and
      nothing is kept when no question ever opens. */
  lemma LeadingParagraphsIgnored(ps: seq<string>, rs: seq<string>)
    requires NoQuestion(Clean(ps))
    ensures QaPairs(ps + rs) == QaPairs(rs)
    ensures QaPairs(ps) == []
  {
    CleanAppend(ps, rs);
    SectionsSkipsLeading(Clean(ps), Clean(rs));
    NoSections(Clean(ps));
  }

  /** A question line directly followed by another question line, or by the
      end of the document, yields no pair and changes nothing else. */
  lemma UnansweredQuestionDropped(ps: seq<string>, q: string, rs: seq<string>)
    requires IsQuestionLine(Strip(q))
    requires OpensWithQuestion(Clean(rs))
    ensures QaPairs(ps + [q] + rs) == QaPairs(ps + rs)
  {
    var t := Strip(q);
    CleanAppend(ps + [q], rs);
    CleanAppend(ps, [q]);
    CleanAppend(ps, rs);
    CleanSingle(q);
    SectionsSplit(Clean(ps) + [t], Clean(rs));
    AppendSection(Clean(ps), t, []);
    RightIdentity(Clean(ps) + [t]);
    RightIdentity(Sections(Clean(ps)));
    SectionsSplit(Clean(ps), Clean(rs));
  }

  /** A final question whose following paragraphs hold no question yields one
      last pair: the stripped question and its non-blank body paragraphs,
      each stripped, joined by single spaces. */
  lemma ClosingPair(ps: seq<string>, q: string, body: seq<string>)
    requires IsQuestionLine(Strip(q))
    requires NoQuestion(Clean(body)) && Clean(body) != []
    ensures QaPairs(ps + [q] + body) == QaPairs(ps) + [(Strip(q), Join(Clean(body), " "))]
  {
    CleanAppend(ps + [q], body);
    CleanAppend(ps, [q]);
    CleanSingle(q);
    AppendSection(Clean(ps), Strip(q), Clean(body));
  }

  /** A document of one paragraph. */
  lemma CleanSingle(p: string)
    ensures Clean([p]) == Kept(p)
  {
    assert [p][..0] == [];
  }

  // ---------------------------------------------------------------------
  // Which questions survive
  // ---------------------------------------------------------------------

  function Questions(pairs: seq<QaPair>): (qs: seq<string>)
    ensures |qs| == |pairs|
  {
    seq(|pairs|, i requires 0 <= i < |pairs| => pairs[i].0)
  }

  function Answers(pairs: seq<QaPair>): (as_: seq<string>)
    ensures |as_| == |pairs|
  {
    seq(|pairs|, i requires 0 <= i < |pairs| => pairs[i].1)
  }

  /** The question lines of `ts`, in order. */
  function QuestionLines(ts: seq<string>): seq<string> {
    if ts == [] then []
    else (if IsQuestionLine(ts[0]) then [ts[0]] else []) + QuestionLines(ts[1..])
  }

  /** Independent description of the kept questions: a question line is kept
      exactly when the next cleaned line exists and is not a question line. */
  function AnsweredQuestions(ts: seq<string>): seq<string> {
    if ts == [] then []
    else
      (if IsQuestionLine(ts[0]) && |ts| > 1 && !IsQuestionLine(ts[1]) then [ts[0]] else [])
      + AnsweredQuestions(ts[1..])
  }

  predicate IsSubsequence(xs: seq<string>, ys: seq<string>)
    decreases |ys|
  {
    xs == [] || (ys != [] && ((xs[0] == ys[0] && IsSubsequence(xs[1..], ys[1..])) || IsSubsequence(xs, ys[1..])))
  }

  lemma {:induction false} AnsweredQuestionsOfNone(n: seq<string>)
    requires NoQuestion(n)
    ensures AnsweredQuestions(n) == []
    decreases |n|
  {
    if n != [] {
      AnsweredQuestionsOfNone(n[1..]);
    }
  }

  lemma {:induction false} AnsweredQuestionsSplit(xs: seq<string>, ys: seq<string>)
    requires ys == [] || IsQuestionLine(ys[0])
    ensures AnsweredQuestions(xs + ys) == AnsweredQuestions(xs) + AnsweredQuestions(ys)
    decreases |xs|
  {
    if xs == [] {
      assert xs + ys == ys;
    } else {
      assert (xs + ys)[1..] == xs[1..] + ys;
      AnsweredQuestionsSplit(xs[1..], ys);
    }
  }

  lemma QuestionsAppend(ps: seq<QaPair>, rs: seq<QaPair>)
    ensures Questions(ps + rs) == Questions(ps) + Questions(rs)
    ensures Answers(ps + rs) == Answers(ps) + Answers(rs)
  {
  }

  /** A pair is produced for exactly the question lines that are directly
      followed by a non-question line, in document order. */
  lemma {:induction false} QuestionsAreAnswered(ts: seq<string>)
    ensures Questions(Sections(ts)) == AnsweredQuestions(ts)
    decreases |ts|
  {
    var k := LastQuestion(ts);
    if k < 0 {
      AnsweredQuestionsOfNone(ts);
    } else {
      var q, body := ts[k], ts[k + 1..];
      assert ts == ts[..k] + ([q] + body);
      AnsweredQuestionsSplit(ts[..k], [q] + body);
      assert ([q] + body)[1..] == body;
      AnsweredQuestionsOfNone(body);
      QuestionsAreAnswered(ts[..k]);
      QuestionsAppend(Sections(ts[..k]), Emit(q, body));
    }
  }

  lemma {:induction false} AnsweredAreQuestionLines(ts: seq<string>)
    ensures IsSubsequence(AnsweredQuestions(ts), QuestionLines(ts))
    decreases |ts|
  {
    if ts != [] {
      var aq, ql := AnsweredQuestions(ts[1..]), QuestionLines(ts[1..]);
      AnsweredAreQuestionLines(ts[1..]);
      if IsQuestionLine(ts[0]) {
        assert QuestionLines(ts) == [ts[0]] + ql;
        if |ts| > 1 && !IsQuestionLine(ts[1]) {
          assert AnsweredQuestions(ts) == [ts[0]] + aq;
          assert ([ts[0]] + aq)[1..] == aq;
          SubsequenceExtend([ts[0]] + aq, ts[0], ql);
        } else {
          assert AnsweredQuestions(ts) == [] + aq == aq;
          SubsequenceExtend(aq, ts[0], ql);
        }
      } else {
        assert AnsweredQuestions(ts) == [] + aq == aq;
        assert QuestionLines(ts) == [] + ql == ql;
      }
    }
  }

  lemma SubsequenceExtend(xs: seq<string>, y: string, ys: seq<string>)
    requires xs == [] || (xs[0] == y && IsSubsequence(xs[1..], ys)) || IsSubsequence(xs, ys)
    ensures IsSubsequence(xs, [y] + ys)
  {
    assert ([y] + ys)[1..] == ys;
  }

  lemma {:induction false} SubsequenceLength(xs: seq<string>, ys: seq<string>)
    requires IsSubsequence(xs, ys)
    ensures |xs| <= |ys|
    decreases |ys|
  {
    if xs != [] {
      if xs[0] == ys[0] && IsSubsequence(xs[1..], ys[1..]) {
        SubsequenceLength(xs[1..], ys[1..]);
      } else {
        SubsequenceLength(xs, ys[1..]);
      }
    }
  }

  /** The questions of the result are question lines of the document, in
      document order, so there are no more pairs than question lines. */
  lemma QuestionsInDocumentOrder(paragraphs: seq<string>)
    ensures IsSubsequence(Questions(QaPairs(paragraphs)), QuestionLines(Clean(paragraphs)))
    ensures |QaPairs(paragraphs)| <= |QuestionLines(Clean(paragraphs))|
  {
    var ts := Clean(paragraphs);
    QuestionsAreAnswered(ts);
    AnsweredAreQuestionLines(ts);
    SubsequenceLength(Questions(Sections(ts)), QuestionLines(ts));
  }

  /** Every pair has a question starting with 'q' or 'Q' and a non-empty
      answer, provided the lines given are non-empty, as cleaned lines are. */
  lemma {:induction false} SectionsWellFormed(ts: seq<string>)
    requires forall i :: 0 <= i < |ts| ==> ts[i] != ""
    ensures forall j :: 0 <= j < |Sections(ts)| ==>
              IsQuestionLine(Sections(ts)[j].0) && Sections(ts)[j].1 != ""
    decreases |ts|
  {
    var k := LastQuestion(ts);
    if k >= 0 {
      SectionsWellFormed(ts[..k]);
    }
  }

  /** Every pair `extract_qa` returns has a question line and a non-empty
      answer; in particular every stored answer is non-empty. */
  lemma PairsWellFormed(paragraphs: seq<string>)
    ensures forall j :: 0 <= j < |QaPairs(paragraphs)| ==>
              IsQuestionLine(QaPairs(paragraphs)[j].0) && QaPairs(paragraphs)[j].1 != ""
    ensures forall j :: 0 <= j < |Answers(QaPairs(paragraphs))| ==> Answers(QaPairs(paragraphs))[j] != ""
  {
    SectionsWellFormed(Clean(paragraphs));
  }
}
