/**
 * One entry of the model's `results` array and the citation built from it,
 * with declarative reference definitions of what the formatter's results
 * loop produces: the rendered content and the list of citations.
 */
module Citations {
  import opened Wrappers
  import opened Decimal
  import opened Text

  /** `{answer, citationTitle?, citationUrl?, citationContent?}`; a missing key reads as `None`. */
  datatype Entry = Entry(
    answer: Option<string>,
    citationTitle: Option<string>,
    citationUrl: Option<string>,
    citationContent: Option<string>)

  /** What the chat client shows for a citation: its name, link and preview. */
  datatype Appearance = Appearance(name: string, url: Option<string>, preview: string)

  datatype ClientCitation = ClientCitation(position: nat, appearance: Appearance)

  /** `snippet(text, limit)` of the agent library: its body is not part of this model. */
  type Snippet = (Option<string>, nat) -> string

  /** Length bound handed to `snippet` for every citation preview. */
  const PreviewLimit: nat := 400

  /** The guard of the loop: the entry has a `citationTitle` and it is not empty. */
  predicate IsCited(e: Entry) {
    e.citationTitle.Some? && |e.citationTitle.value| > 0
  }

  /** `f"{answer}"`: a missing answer is spelled `None`, as Python does. */
  function AnswerText(e: Entry): string {
    e.answer.GetOr("None")
  }

  /** The reference marker `[n]` written after a cited answer. */
  function Marker(position: nat): (m: string)
    ensures |m| >= 3 && m[0] == '[' && m[|m| - 1] == ']'
    ensures '\n' !in m
  {
    "[" + DecimalString(position) + "]"
  }

  /** The marker's body is the decimal spelling of the position. */
  lemma MarkerDigits(position: nat)
    ensures Marker(position)[1..|Marker(position)| - 1] == DecimalString(position)
    ensures forall i :: 1 <= i < |Marker(position)| - 1 ==> IsDigit(Marker(position)[i])
  {
  }

  /** Distinct positions get distinct markers. */
  lemma MarkerInjective(a: nat, b: nat)
    requires Marker(a) == Marker(b)
    ensures a == b
  {
    MarkerDigits(a);
    MarkerDigits(b);
    DecimalStringInjective(a, b);
  }

  /** What one entry appends to the content, given the position it would take. */
  function Piece(e: Entry, position: nat): string {
    if IsCited(e) then AnswerText(e) + Marker(position) + LineBreak
    else AnswerText(e) + LineBreak
  }

  /** `citationTitle or f"Document #{position}"`. */
  function DisplayName(e: Entry, position: nat): string {
    if e.citationTitle.Some? && |e.citationTitle.value| > 0 then e.citationTitle.value
    else "Document #" + DecimalString(position)
  }

  /** The citation built for a cited entry at `position`. */
  function MakeCitation(e: Entry, position: nat, snippet: Snippet): (c: ClientCitation)
    ensures c.position == position
    ensures IsCited(e) ==> c.appearance.name == e.citationTitle.value
    ensures c.appearance.url == e.citationUrl
    ensures c.appearance.preview == snippet(e.citationContent, PreviewLimit)
  {
    ClientCitation(position, Appearance(DisplayName(e, position), e.citationUrl,
                                        snippet(e.citationContent, PreviewLimit)))
  }

  /** Number of cited entries. */
  function CitedCount(es: seq<Entry>): (n: nat)
    ensures n <= |es|
  {
    if |es| == 0 then 0 else (if IsCited(es[0]) then 1 else 0) + CitedCount(es[1..])
  }

  /** The cited entries, in their original order. */
  function CitedEntries(es: seq<Entry>): (cs: seq<Entry>)
    ensures |cs| == CitedCount(es)
    ensures forall i :: 0 <= i < |cs| ==> IsCited(cs[i])
  {
    if |es| == 0 then []
    else (if IsCited(es[0]) then [es[0]] else []) + CitedEntries(es[1..])
  }

  /**
   * Reference definition of the content: each entry's piece in order, where a
   * cited entry takes the next position after those of the cited entries before it.
   */
  function Render(es: seq<Entry>, first: nat): string {
    if |es| == 0 then ""
    else Piece(es[0], first) + Render(es[1..], first + (if IsCited(es[0]) then 1 else 0))
  }

  /**
   * Reference definition of the citations: one per cited entry, in order, each
   * at the position that entry takes in `Render`.
   */
  function CitationsFrom(es: seq<Entry>, first: nat, snippet: Snippet): seq<ClientCitation> {
    if |es| == 0 then []
    else if IsCited(es[0]) then [MakeCitation(es[0], first, snippet)] + CitationsFrom(es[1..], first + 1, snippet)
    else CitationsFrom(es[1..], first, snippet)
  }

  lemma {:induction false} CitedCountAppend(es: seq<Entry>, e: Entry)
    ensures CitedCount(es + [e]) == CitedCount(es) + (if IsCited(e) then 1 else 0)
    decreases |es|
  {
    if |es| > 0 {
      assert (es + [e])[1..] == es[1..] + [e];
      CitedCountAppend(es[1..], e);
    } else {
      assert es + [e] == [e];
    }
  }

  /** The cited entries are exactly the entries of `es` that pass the guard. */
  lemma {:induction false} CitedEntriesMembers(es: seq<Entry>)
    ensures forall e :: e in CitedEntries(es) <==> e in es && IsCited(e)
    decreases |es|
  {
    if |es| > 0 {
      CitedEntriesMembers(es[1..]);
      assert es == [es[0]] + es[1..];
    }
  }

  lemma {:induction false} CitedEntriesAppend(es: seq<Entry>, e: Entry)
    ensures CitedEntries(es + [e]) == CitedEntries(es) + (if IsCited(e) then [e] else [])
    decreases |es|
  {
    if |es| > 0 {
      assert (es + [e])[1..] == es[1..] + [e];
      CitedEntriesAppend(es[1..], e);
    } else {
      assert es + [e] == [e];
    }
  }

  /**
   * Appending one entry appends its piece, at the position after all cited
   * entries before it: the step of the formatter's left-to-right loop.
   */
  lemma {:induction false} RenderAppend(es: seq<Entry>, e: Entry, first: nat)
    ensures Render(es + [e], first) == Render(es, first) + Piece(e, first + CitedCount(es))
    decreases |es|
  {
    if |es| > 0 {
      var next := first + (if IsCited(es[0]) then 1 else 0);
      assert (es + [e])[1..] == es[1..] + [e];
      RenderAppend(es[1..], e, next);
    } else {
      assert es + [e] == [e];
    }
  }

  lemma SplitAt<T>(s: seq<T>, k: nat)
    requires k < |s|
    ensures s == s[..k] + ([s[k]] + s[k + 1..])
    ensures s[..k + 1] == s[..k] + [s[k]]
  {
  }

  /** Rendering an entry followed by more entries: its piece, then the rest numbered on. */
  lemma RenderCons(e: Entry, es: seq<Entry>, first: nat)
    ensures Render([e] + es, first)
         == Piece(e, first) + Render(es, first + (if IsCited(e) then 1 else 0))
  {
    assert ([e] + es)[1..] == es;
  }

  /** An entry between two runs of entries is rendered between their renderings. */
  lemma RenderAround(pre: seq<Entry>, e: Entry, post: seq<Entry>, first: nat)
    ensures Render(pre + ([e] + post), first)
         == Render(pre, first)
          + (Piece(e, first + CitedCount(pre))
             + Render(post, first + CitedCount(pre) + (if IsCited(e) then 1 else 0)))
  {
    RenderConcat(pre, [e] + post, first);
    RenderCons(e, post, first + CitedCount(pre));
  }

  /**
   * The content is the in-order concatenation of every entry's piece: entry `k`
   * is rendered at position `first` plus the number of cited entries before it.
   */
  lemma RenderSplit(es: seq<Entry>, k: nat, first: nat)
    requires k < |es|
    ensures Render(es, first)
         == Render(es[..k], first)
          + (Piece(es[k], first + CitedCount(es[..k]))
             + Render(es[k + 1..], first + CitedCount(es[..k + 1])))
  {
    SplitAt(es, k);
    RenderAround(es[..k], es[k], es[k + 1..], first);
    CitedCountAppend(es[..k], es[k]);
  }

  lemma {:induction false} RenderConcat(xs: seq<Entry>, ys: seq<Entry>, first: nat)
    ensures Render(xs + ys, first) == Render(xs, first) + Render(ys, first + CitedCount(xs))
    decreases |xs|
  {
    if |xs| > 0 {
      var e, xs' := xs[0], xs[1..];
      var next := first + (if IsCited(e) then 1 else 0);
      assert xs == [e] + xs';
      assert xs + ys == [e] + (xs' + ys);
      RenderCons(e, xs' + ys, first);
      RenderCons(e, xs', first);
      RenderConcat(xs', ys, next);
      assert CitedCount(xs) == (if IsCited(e) then 1 else 0) + CitedCount(xs');
      ConcatAssoc(Piece(e, first), Render(xs', next), Render(ys, next + CitedCount(xs')));
    } else {
      assert xs + ys == ys;
    }
  }

  lemma ConcatAssoc<T>(a: seq<T>, b: seq<T>, c: seq<T>)
    ensures a + (b + c) == (a + b) + c
  {
  }

  /** The i-th citation is the one built for the i-th cited entry, at position `first + i`. */
  lemma {:induction false} CitationsAreCitedEntries(es: seq<Entry>, first: nat, snippet: Snippet)
    ensures |CitationsFrom(es, first, snippet)| == |CitedEntries(es)|
    ensures forall i :: 0 <= i < |CitedEntries(es)| ==>
      CitationsFrom(es, first, snippet)[i] == MakeCitation(CitedEntries(es)[i], first + i, snippet)
    decreases |es|
  {
    if |es| > 0 {
      var e := es[0];
      var r := CitationsFrom(es, first, snippet);
      var cs := CitedEntries(es);
      if IsCited(e) {
        var r', cs' := CitationsFrom(es[1..], first + 1, snippet), CitedEntries(es[1..]);
        CitationsAreCitedEntries(es[1..], first + 1, snippet);
        assert r == [MakeCitation(e, first, snippet)] + r';
        assert cs == [e] + cs';
        forall i | 0 <= i < |cs|
          ensures r[i] == MakeCitation(cs[i], first + i, snippet)
        {
          if i > 0 {
            assert r[i] == r'[i - 1];
            assert cs[i] == cs'[i - 1];
          }
        }
      } else {
        CitationsAreCitedEntries(es[1..], first, snippet);
        assert r == CitationsFrom(es[1..], first, snippet);
        assert cs == [] + CitedEntries(es[1..]);
      }
    }
  }

  /**
   * The citations are the cited entries, in order, numbered consecutively from
   * `first`; each is named after its entry's title, so the `Document #n`
   * fallback never applies.
   */
  lemma CitationsNumbering(es: seq<Entry>, first: nat, snippet: Snippet)
    ensures |CitationsFrom(es, first, snippet)| == CitedCount(es)
    ensures forall i :: 0 <= i < CitedCount(es) ==>
      CitationsFrom(es, first, snippet)[i].position == first + i
    ensures forall i :: 0 <= i < CitedCount(es) ==>
      CitationsFrom(es, first, snippet)[i].appearance.name == CitedEntries(es)[i].citationTitle.value
  {
    CitationsAreCitedEntries(es, first, snippet);
  }

  /** Appending an entry appends its citation exactly when it is cited. */
  lemma {:induction false} CitationsAppend(es: seq<Entry>, e: Entry, first: nat, snippet: Snippet)
    ensures CitationsFrom(es + [e], first, snippet)
         == CitationsFrom(es, first, snippet)
          + (if IsCited(e) then [MakeCitation(e, first + CitedCount(es), snippet)] else [])
    decreases |es|
  {
    if |es| > 0 {
      var step := if IsCited(es[0]) then 1 else 0;
      assert (es + [e])[1..] == es[1..] + [e];
      CitationsAppend(es[1..], e, first + step, snippet);
    } else {
      assert es + [e] == [e];
    }
  }

  /** Every citation's marker `[p]` appears in the rendered content. */
  lemma {:induction false} MarkerOccurs(es: seq<Entry>, first: nat, p: nat)
    requires first <= p < first + CitedCount(es)
    ensures Occurs(Marker(p), Render(es, first))
    decreases |es|
  {
    var e, es' := es[0], es[1..];
    var step := if IsCited(e) then 1 else 0;
    var rest := Render(es', first + step);
    assert Render(es, first) == Piece(e, first) + rest;
    if IsCited(e) && p == first {
      MarkerInPiece(e, first, rest);
    } else {
      MarkerOccurs(es', first + step, p);
      OccursAfter(Marker(p), Piece(e, first), rest);
    }
  }

  /** A cited entry's piece holds its own marker. */
  lemma MarkerInPiece(e: Entry, position: nat, rest: string)
    requires IsCited(e)
    ensures Occurs(Marker(position), Piece(e, position) + rest)
  {
    var a, m := AnswerText(e), Marker(position);
    OccursSelf(m);
    OccursExtend(m, a, m, LineBreak + rest);
    ConcatAssoc(a + m, LineBreak, rest);
  }

  lemma OccursAfter(sub: string, a: string, s: string)
    requires Occurs(sub, s)
    ensures Occurs(sub, a + s)
  {
    OccursExtend(sub, a, s, "");
    assert a + s + "" == a + s;
  }

  /** An entry whose answer already had its newlines replaced. */
  function WithoutNewlines(e: Entry): (r: Entry)
    ensures IsCited(r) == IsCited(e)
    ensures AnswerText(r) == ReplaceNewlines(AnswerText(e))
  {
    e.(answer := Some(ReplaceNewlines(AnswerText(e))))
  }

  function AllWithoutNewlines(es: seq<Entry>): (rs: seq<Entry>)
    ensures |rs| == |es|
    ensures forall i :: 0 <= i < |es| ==> rs[i] == WithoutNewlines(es[i])
    ensures CitedCount(rs) == CitedCount(es)
  {
    if |es| == 0 then [] else [WithoutNewlines(es[0])] + AllWithoutNewlines(es[1..])
  }

  /**
   * Replacing newlines in the rendered content is the same as rendering the
   * answers with their newlines replaced: markers, positions and line breaks
   * are untouched.
   */
  lemma {:induction false} ReplaceNewlinesRender(es: seq<Entry>, first: nat)
    ensures ReplaceNewlines(Render(es, first)) == Render(AllWithoutNewlines(es), first)
    decreases |es|
  {
    if |es| > 0 {
      var e := es[0];
      var next := first + (if IsCited(e) then 1 else 0);
      var rs := AllWithoutNewlines(es);
      assert rs[1..] == AllWithoutNewlines(es[1..]);
      ReplaceNewlinesRender(es[1..], next);
      if IsCited(e) {
        ReplaceNewlinesAppend(AnswerText(e) + Marker(first) + LineBreak, Render(es[1..], next));
        ReplaceNewlinesAppend(AnswerText(e) + Marker(first), LineBreak);
        ReplaceNewlinesAppend(AnswerText(e), Marker(first));
      } else {
        ReplaceNewlinesAppend(AnswerText(e) + LineBreak, Render(es[1..], next));
        ReplaceNewlinesAppend(AnswerText(e), LineBreak);
      }
    }
  }
}
