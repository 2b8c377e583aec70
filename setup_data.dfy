/**
 * The deterministic part of the indexing script (setup_data.py): the check
 * for required environment variables, the text normaliser `clean_text`, the
 * cleaning of the title and content columns, and the construction of one
 * document per row.
 */
module SetupData {
  import opened Wrappers
  import opened Text
  import opened Records

  // ---------------------------------------------------------------------
  // Required environment variables
  // ---------------------------------------------------------------------

  const REQUIRED_ENV_VARS: seq<string> :=
    ["DATA_PATH", "QDRANT_HOST", "QDRANT_PORT", "QDRANT_API_KEY", "QDRANT_COLLECTION_NAME", "OPENAI_API_KEY"]

  /** The `EnvironmentError` raised for the variable `name`. */
  datatype EnvironmentError = EnvironmentError(name: string)

  function EnvironmentErrorMessage(e: EnvironmentError): string
  {
    "Environment variable " + e.name + " is not set."
  }

  /** Walks `required` in order and stops at the first name that `env` does
      not define; `None` when every name is defined. A variable set to the
      empty string is defined. */
  method CheckEnvironment(required: seq<string>, env: map<string, string>) returns (err: Option<EnvironmentError>)
    ensures err.None? <==> forall i :: 0 <= i < |required| ==> required[i] in env
    ensures err.Some? ==>
      exists i :: 0 <= i < |required| && required[i] == err.value.name && required[i] !in env &&
        forall j :: 0 <= j < i ==> required[j] in env
  {
    for i := 0 to |required|
      invariant forall j :: 0 <= j < i ==> required[j] in env
    {
      if required[i] !in env {
        return Some(EnvironmentError(required[i]));
      }
    }
    return None;
  }

  /** The script's check: the text of the error it raises, which names the
      first required variable that is not set. */
  method CheckRequiredEnvironment(env: map<string, string>) returns (message: Option<string>)
    ensures message.None? <==> forall i :: 0 <= i < |REQUIRED_ENV_VARS| ==> REQUIRED_ENV_VARS[i] in env
    ensures message.Some? ==>
      exists i :: 0 <= i < |REQUIRED_ENV_VARS| && REQUIRED_ENV_VARS[i] !in env &&
        (forall j :: 0 <= j < i ==> REQUIRED_ENV_VARS[j] in env) &&
        message.value == "Environment variable " + REQUIRED_ENV_VARS[i] + " is not set."
  {
    var err := CheckEnvironment(REQUIRED_ENV_VARS, env);
    if err.Some? {
      return Some(EnvironmentErrorMessage(err.value));
    }
    return None;
  }

  // ---------------------------------------------------------------------
  // clean_text
  // ---------------------------------------------------------------------

  /** Every whitespace character is a plain space and no two whitespace
      characters are adjacent. */
  ghost predicate SingleSpaced(s: string)
  {
    && (forall i :: 0 <= i < |s| && IsSpace(s[i]) ==> s[i] == ' ')
    && (forall i, j :: 0 <= i < j < |s| && j == i + 1 ==> !(IsSpace(s[i]) && IsSpace(s[j])))
  }

  /** The shape of every output of `clean_text`. */
  ghost predicate Normalized(s: string)
  {
    SingleSpaced(s) && (s != [] ==> !IsSpace(s[0]) && !IsSpace(s[|s| - 1]))
  }

  /** `re.sub(r'\s+', ' ', s)`: every maximal run of whitespace becomes one space. */
  function CollapseSpaces(s: string): string
    decreases |s|
  {
    if s == [] then []
    else if IsSpace(s[0]) then
      [' '] + CollapseSpaces(s[LeadingSpaces(s)..])
    else
      [s[0]] + CollapseSpaces(s[1..])
  }

  /** `clean_text`: collapse whitespace runs, then strip the ends. */
  function CleanText(s: string): string
  {
    Strip(CollapseSpaces(s))
  }

  /** Collapsing never lengthens, empties only the empty string, and turns a
      whitespace character at either end into a space while keeping any other
      end character. */
  lemma {:induction false} CollapseEnds(s: string)
    ensures |CollapseSpaces(s)| <= |s|
    ensures CollapseSpaces(s) == [] <==> s == []
    ensures s != [] ==> CollapseSpaces(s)[0] == (if IsSpace(s[0]) then ' ' else s[0])
    ensures s != [] ==> CollapseSpaces(s)[|CollapseSpaces(s)| - 1] == (if IsSpace(s[|s| - 1]) then ' ' else s[|s| - 1])
    decreases |s|
  {
    if s != [] {
      var c, rest := CollapseStep(s);
      CollapseEnds(rest);
      var r := CollapseSpaces(rest);
      assert CollapseSpaces(s) == [c] + r;
    }
  }

  /** One step of the replacement: the first character or run becomes `c`,
      and the replacement goes on with `rest`, which ends like `s` does. */
  lemma CollapseStep(s: string) returns (c: char, rest: string)
    requires s != []
    ensures c == (if IsSpace(s[0]) then ' ' else s[0])
    ensures |rest| < |s| && CollapseSpaces(s) == [c] + CollapseSpaces(rest)
    ensures rest != [] ==> rest[|rest| - 1] == s[|s| - 1]
    ensures rest == [] ==> (if IsSpace(s[0]) then IsSpace(s[|s| - 1]) else s[|s| - 1] == s[0])
  {
    if IsSpace(s[0]) {
      c, rest := ' ', s[LeadingSpaces(s)..];
      CollapseStepAtRun(s);
    } else {
      c, rest := s[0], s[1..];
    }
  }

  lemma CollapseStepAtRun(s: string)
    requires s != [] && IsSpace(s[0])
    ensures CollapseSpaces(s) == [' '] + CollapseSpaces(s[LeadingSpaces(s)..])
    ensures LeadingSpaces(s) == |s| ==> IsSpace(s[|s| - 1])
    ensures LeadingSpaces(s) < |s| ==> s[LeadingSpaces(s)..][|s| - LeadingSpaces(s) - 1] == s[|s| - 1]
  {
    var n := LeadingSpaces(s);
    if n == |s| {
      assert IsSpace(s[n - 1]);
    }
  }

  /** Collapsing leaves only single plain spaces. */
  lemma {:induction false} CollapseIsSingleSpaced(s: string)
    ensures SingleSpaced(CollapseSpaces(s))
    decreases |s|
  {
    if s != [] {
      var r := CollapseSpaces(s);
      var rest := if IsSpace(s[0]) then s[LeadingSpaces(s)..] else s[1..];
      var c := if IsSpace(s[0]) then ' ' else s[0];
      CollapseIsSingleSpaced(rest);
      CollapseEnds(rest);
      assert r == [c] + CollapseSpaces(rest);
      assert forall k :: 1 <= k < |r| ==> r[k] == CollapseSpaces(rest)[k - 1];
    }
  }

  lemma SingleSpacedInfix(s: string, i: nat, j: nat)
    requires SingleSpaced(s) && i <= j <= |s|
    ensures SingleSpaced(s[i..j])
  {
    assert forall k :: 0 <= k < j - i ==> s[i..j][k] == s[i + k];
  }

  /** The output of `clean_text` has no whitespace at either end, no two
      adjacent whitespace characters, and only ' ' as whitespace. */
  lemma CleanTextNormalized(s: string)
    ensures Normalized(CleanText(s))
  {
    var c := CollapseSpaces(s);
    CollapseIsSingleSpaced(s);
    var i, j := StripBounds(c);
    SingleSpacedInfix(c, i, j);
  }

  lemma CollapseCons(c: char, x: string)
    requires !IsSpace(c)
    ensures CollapseSpaces([c] + x) == [c] + CollapseSpaces(x)
  {
    assert ([c] + x)[1..] == x;
  }

  /** Collapsing leaves a single-spaced string as it is. */
  lemma {:induction false} CollapseSingleSpaced(s: string)
    requires SingleSpaced(s)
    ensures CollapseSpaces(s) == s
    decreases |s|
  {
    if s != [] {
      var t := s[1..];
      SingleSpacedInfix(s, 1, |s|);
      CollapseSingleSpaced(t);
      if IsSpace(s[0]) {
        assert t != [] ==> !IsSpace(t[0]);
        assert LeadingSpaces(t) == 0;
        assert LeadingSpaces(s) == 1;
        assert s[LeadingSpaces(s)..] == t;
        assert CollapseSpaces(s) == [' '] + CollapseSpaces(t);
      } else {
        assert CollapseSpaces(s) == [s[0]] + CollapseSpaces(t);
      }
    }
  }

  /** Stripping leaves a string without whitespace at its ends as it is. */
  lemma StripTrimmed(s: string)
    requires s != [] ==> !IsSpace(s[0]) && !IsSpace(s[|s| - 1])
    ensures Strip(s) == s
  {
    assert LeadingSpaces(s) == 0;
    assert TrailingSpaces(s) == 0;
  }

  /** Normalized strings are exactly the fixed points of `clean_text`. */
  lemma NormalizedIsFixedPoint(s: string)
    ensures Normalized(s) <==> CleanText(s) == s
  {
    if Normalized(s) {
      CollapseSingleSpaced(s);
      StripTrimmed(s);
    }
    CleanTextNormalized(s);
  }

  /** `clean_text` is idempotent. */
  lemma CleanTextIdempotent(s: string)
    ensures CleanText(CleanText(s)) == CleanText(s)
  {
    CleanTextNormalized(s);
    NormalizedIsFixedPoint(CleanText(s));
  }

  lemma {:induction false} CollapseKeepsNonSpace(s: string)
    ensures NonSpace(CollapseSpaces(s)) == NonSpace(s)
    decreases |s|
  {
    if s != [] {
      if IsSpace(s[0]) {
        var n := LeadingSpaces(s);
        CollapseKeepsNonSpace(s[n..]);
        assert s == s[..n] + s[n..];
        NonSpaceAppend(s[..n], s[n..]);
        NonSpaceEmpty(s[..n]);
        NonSpaceAppend([' '], CollapseSpaces(s[n..]));
      } else {
        CollapseKeepsNonSpace(s[1..]);
        NonSpaceAppend([s[0]], CollapseSpaces(s[1..]));
      }
    }
  }

  /** `clean_text` keeps every non-whitespace character, in order: deleting
      the whitespace of the input gives the output with its spaces deleted. */
  lemma CleanTextKeepsNonSpace(s: string)
    ensures Delete(CleanText(s), ' ') == NonSpace(s)
  {
    CollapseKeepsNonSpace(s);
    StripKeepsNonSpace(CollapseSpaces(s));
    CleanTextNormalized(s);
    DeleteSpaceIsNonSpace(CleanText(s));
  }

  /** `clean_text` empties exactly the all-whitespace strings (the empty one
      included) and never lengthens its input. */
  lemma CleanTextEmpty(s: string)
    ensures CleanText(s) == [] <==> AllSpace(s)
    ensures |CleanText(s)| <= |s|
  {
    CleanTextKeepsNonSpace(s);
    NonSpaceEmpty(s);
    var r := CleanText(s);
    if r != [] {
      CleanTextNormalized(s);
      assert Delete(r, ' ') == [r[0]] + Delete(r[1..], ' ');
    }
    var c := CollapseSpaces(s);
    CollapseEnds(s);
    var i, j := StripBounds(c);
  }

  // ---------------------------------------------------------------------
  // An independent reference: `" ".join(s.split())`
  // ---------------------------------------------------------------------

  /** Length of the maximal non-whitespace prefix of `s`. */
  function WordLength(s: string): (n: nat)
    ensures n <= |s|
    ensures forall i :: 0 <= i < n ==> !IsSpace(s[i])
    ensures n < |s| ==> IsSpace(s[n])
  {
    if |s| > 0 && !IsSpace(s[0]) then 1 + WordLength(s[1..]) else 0
  }

  /** `s.split()` with no argument: the maximal whitespace-free pieces of `s`, in order. */
  function Words(s: string): seq<string>
    decreases |s|
  {
    var t := s[LeadingSpaces(s)..];
    if t == [] then [] else [t[..WordLength(t)]] + Words(t[WordLength(t)..])
  }

  /** `" ".join(ws)`. */
  function JoinWithSpaces(ws: seq<string>): string
  {
    if ws == [] then "" else if |ws| == 1 then ws[0] else ws[0] + " " + JoinWithSpaces(ws[1..])
  }

  predicate IsWord(w: string)
  {
    w != [] && forall i :: 0 <= i < |w| ==> !IsSpace(w[i])
  }

  lemma {:induction false} WordsAreWords(s: string)
    ensures forall k :: 0 <= k < |Words(s)| ==> IsWord(Words(s)[k])
    decreases |s|
  {
    var t := s[LeadingSpaces(s)..];
    if t != [] {
      WordsAreWords(t[WordLength(t)..]);
    }
  }

  lemma {:induction false} JoinEnds(ws: seq<string>)
    requires forall k :: 0 <= k < |ws| ==> IsWord(ws[k])
    ensures JoinWithSpaces(ws) == [] <==> ws == []
    ensures ws != [] ==> ws[0] != [] && JoinWithSpaces(ws)[0] == ws[0][0]
    ensures ws != [] ==> ws[|ws| - 1] != [] && JoinWithSpaces(ws)[|JoinWithSpaces(ws)| - 1] == ws[|ws| - 1][|ws[|ws| - 1]| - 1]
  {
    if |ws| > 1 {
      JoinEnds(ws[1..]);
    }
  }

  /** Collapsing copies a leading word unchanged. */
  lemma {:induction false} CollapseWord(w: string, rest: string)
    requires forall i :: 0 <= i < |w| ==> !IsSpace(w[i])
    ensures CollapseSpaces(w + rest) == w + CollapseSpaces(rest)
    decreases |w|
  {
    if w != [] {
      CollapseWord(w[1..], rest);
      assert w + rest == [w[0]] + (w[1..] + rest);
      CollapseCons(w[0], w[1..] + rest);
      assert w == [w[0]] + w[1..];
    } else {
      assert w + rest == rest;
    }
  }

  /** A word followed by nothing or by whitespace is the first of the words. */
  lemma WordsOfWord(w: string, rest: string)
    requires IsWord(w) && (rest == [] || IsSpace(rest[0]))
    ensures Words(w + rest) == [w] + Words(rest)
  {
    var x := w + rest;
    assert x[0] == w[0];
    assert LeadingSpaces(x) == 0;
    assert WordLength(x) == |w| by {
      assert forall i :: 0 <= i < |w| ==> x[i] == w[i];
      assert |w| < |x| ==> x[|w|] == rest[0];
    }
    assert x[..|w|] == w && x[|w|..] == rest;
  }

  /** Whitespace in front of the words does not change them. */
  lemma WordsOfSpaces(sp: string, u: string)
    requires AllSpace(sp) && (u == [] || !IsSpace(u[0]))
    ensures Words(sp + u) == Words(u)
  {
    var x := sp + u;
    assert LeadingSpaces(x) == |sp| by {
      assert forall i :: 0 <= i < |sp| ==> x[i] == sp[i];
      assert |sp| < |x| ==> x[|sp|] == u[0];
    }
    assert x[|sp|..] == u;
    if u != [] {
      assert LeadingSpaces(u) == 0;
    }
  }

  /** A whitespace run in front of a word collapses to one space. */
  lemma CollapseRun(sp: string, u: string)
    requires sp != [] && AllSpace(sp) && (u == [] || !IsSpace(u[0]))
    ensures CollapseSpaces(sp + u) == [' '] + CollapseSpaces(u)
  {
    var x := sp + u;
    assert x[0] == sp[0];
    assert LeadingSpaces(x) == |sp| by {
      assert forall i :: 0 <= i < |sp| ==> x[i] == sp[i];
      assert |sp| < |x| ==> x[|sp|] == u[0];
    }
    assert x[|sp|..] == u;
  }

  lemma JoinCons(w: string, ws: seq<string>)
    requires ws != []
    ensures JoinWithSpaces([w] + ws) == w + " " + JoinWithSpaces(ws)
  {
    assert ([w] + ws)[1..] == ws;
  }

  lemma Assoc3(a: string, b: string, c: string)
    ensures a + (b + c) == (a + b) + c
  {
  }

  /** One space when `t` ends in whitespace, nothing otherwise. */
  function EndGap(t: string): string
  {
    if t != [] && IsSpace(t[|t| - 1]) then " " else ""
  }

  lemma OneWordCase(w: string)
    requires IsWord(w)
    ensures CollapseSpaces(w) == JoinWithSpaces(Words(w)) + EndGap(w)
  {
    WordsOfWord(w, []);
    CollapseWord(w, []);
    assert w + [] == w;
    assert Words([]) == [];
  }

  lemma OneWordThenSpaceCase(w: string, sp: string)
    requires IsWord(w) && sp != [] && AllSpace(sp)
    ensures CollapseSpaces(w + sp) == JoinWithSpaces(Words(w + sp)) + EndGap(w + sp)
  {
    WordsOfWord(w, sp);
    WordsOfSpaces(sp, []);
    CollapseWord(w, sp);
    CollapseRun(sp, []);
    assert sp + [] == sp;
    assert Words([]) == [];
    assert (w + sp)[|w + sp| - 1] == sp[|sp| - 1];
  }

  lemma ManyWordsCase(w: string, sp: string, u: string)
    requires IsWord(w) && sp != [] && AllSpace(sp) && u != [] && !IsSpace(u[0])
    requires CollapseSpaces(u) == JoinWithSpaces(Words(u)) + EndGap(u)
    ensures CollapseSpaces(w + (sp + u)) == JoinWithSpaces(Words(w + (sp + u))) + EndGap(w + (sp + u))
  {
    WordsOfWord(w, sp + u);
    WordsOfSpaces(sp, u);
    CollapseWord(w, sp + u);
    CollapseRun(sp, u);
    assert EndGap(w + (sp + u)) == EndGap(u) by {
      assert (w + (sp + u))[|w + (sp + u)| - 1] == u[|u| - 1];
    }
    var ws := Words(u);
    assert ws != [] by {
      assert LeadingSpaces(u) == 0;
    }
    JoinCons(w, ws);
    Assoc3(w, [' '], CollapseSpaces(u));
    Assoc3(w + " ", JoinWithSpaces(ws), EndGap(u));
  }

  /** On a string that does not start with whitespace, collapsing yields the
      joined words, followed by one space when the string ends in whitespace. */
  lemma {:induction false} CollapseIsJoinedWords(t: string)
    requires t != [] ==> !IsSpace(t[0])
    ensures CollapseSpaces(t) == JoinWithSpaces(Words(t)) + EndGap(t)
    decreases |t|
  {
    if t != [] {
      var n := WordLength(t);
      var w, rest := t[..n], t[n..];
      assert IsWord(w);
      if rest == [] {
        assert t == w;
        OneWordCase(w);
      } else {
        var m := LeadingSpaces(rest);
        var sp, u := rest[..m], rest[m..];
        assert AllSpace(sp);
        if u == [] {
          assert t == w + sp;
          OneWordThenSpaceCase(w, sp);
        } else {
          assert t == w + (sp + u);
          CollapseIsJoinedWords(u);
          ManyWordsCase(w, sp, u);
        }
      }
    }
  }

  /** Stripping removes exactly a surrounding whitespace prefix and suffix. */
  lemma StripSurrounded(a: string, m: string, b: string)
    requires AllSpace(a) && AllSpace(b)
    requires m != [] ==> !IsSpace(m[0]) && !IsSpace(m[|m| - 1])
    ensures Strip(a + m + b) == m
  {
    var x := a + m + b;
    if m == [] {
      assert AllSpace(x) by {
        assert forall i :: 0 <= i < |x| ==> x[i] == (if i < |a| then a[i] else b[i - |a|]);
      }
    } else {
      assert x[|a|] == m[0];
      assert LeadingSpaces(x) == |a| by {
        assert forall i :: 0 <= i < |a| ==> x[i] == a[i];
      }
      var t := x[|a|..];
      assert t == m + b;
      assert t[|m| - 1] == m[|m| - 1];
      assert TrailingSpaces(t) == |b| by {
        assert forall i :: |m| <= i < |t| ==> t[i] == b[i - |m|];
      }
      assert t[..|t| - |b|] == m;
    }
  }

  /** Joined words have no whitespace at either end. */
  lemma JoinedWordsTrimmed(t: string)
    ensures JoinWithSpaces(Words(t)) != [] ==>
      !IsSpace(JoinWithSpaces(Words(t))[0]) && !IsSpace(JoinWithSpaces(Words(t))[|JoinWithSpaces(Words(t))| - 1])
  {
    WordsAreWords(t);
    JoinEnds(Words(t));
  }

  /** Stripping the collapse of `t` gives its joined words. */
  lemma StripCollapsed(a: string, t: string)
    requires a == [] || a == " "
    requires t == [] || !IsSpace(t[0])
    ensures Strip(a + CollapseSpaces(t)) == JoinWithSpaces(Words(t))
  {
    CollapseIsJoinedWords(t);
    JoinedWordsTrimmed(t);
    var j, g := JoinWithSpaces(Words(t)), EndGap(t);
    Assoc3(a, j, g);
    StripSurrounded(a, j, g);
  }

  lemma CleanTextOfPadded(sp: string, t: string)
    requires AllSpace(sp) && (t == [] || !IsSpace(t[0]))
    ensures CleanText(sp + t) == JoinWithSpaces(Words(sp + t))
  {
    WordsOfSpaces(sp, t);
    if sp == [] {
      assert sp + t == t;
      StripCollapsed([], t);
      assert [] + CollapseSpaces(t) == CollapseSpaces(t);
    } else {
      CollapseRun(sp, t);
      StripCollapsed(" ", t);
    }
  }

  /** `clean_text(s) == " ".join(s.split())`. */
  lemma CleanTextIsJoinedWords(s: string)
    ensures CleanText(s) == JoinWithSpaces(Words(s))
  {
    var n := LeadingSpaces(s);
    assert s == s[..n] + s[n..];
    CleanTextOfPadded(s[..n], s[n..]);
  }

  // ---------------------------------------------------------------------
  // Documents
  // ---------------------------------------------------------------------

  /** `clean_text` applied to the title and content columns; the other
      columns are left as read. */
  function CleanRows(rows: seq<Row>): (cleaned: seq<Row>)
    ensures |cleaned| == |rows|
    ensures forall i :: 0 <= i < |rows| ==>
      && cleaned[i].source == rows[i].source
      && cleaned[i].title == CleanText(rows[i].title)
      && cleaned[i].url == rows[i].url
      && cleaned[i].date == rows[i].date
      && cleaned[i].content == CleanText(rows[i].content)
  {
    seq(|rows|, i requires 0 <= i < |rows| =>
      rows[i].(title := CleanText(rows[i].title), content := CleanText(rows[i].content)))
  }

  /** A LlamaIndex `Document`: its text and its string-valued metadata. */
  datatype Document = Document(text: string, metadata: map<string, string>)

  const METADATA_KEYS: set<string> := {"source", "title", "url", "date"}

  function RowDocument(row: Row): Document
  {
    Document(row.content, map["source" := row.source, "title" := row.title, "url" := row.url, "date" := row.date])
  }

  /** The document list comprehension: one document per row, in row order. */
  function MakeDocuments(rows: seq<Row>): (docs: seq<Document>)
    ensures |docs| == |rows|
    ensures forall i :: 0 <= i < |rows| ==>
      && docs[i].text == rows[i].content
      && docs[i].metadata.Keys == METADATA_KEYS
      && docs[i].metadata["source"] == rows[i].source
      && docs[i].metadata["title"] == rows[i].title
      && docs[i].metadata["url"] == rows[i].url
      && docs[i].metadata["date"] == rows[i].date
  {
    seq(|rows|, i requires 0 <= i < |rows| => RowDocument(rows[i]))
  }

  /** Reads a row back out of a document; `None` when the metadata lacks a key. */
  function DocumentRow(d: Document): Option<Row>
  {
    if METADATA_KEYS <= d.metadata.Keys then
      Some(Row(d.metadata["source"], d.metadata["title"], d.metadata["url"], d.metadata["date"], d.text))
    else
      None
  }

  /** Nothing of a row is lost in its document: the row can be read back. */
  lemma DocumentRoundTrip(rows: seq<Row>, i: nat)
    requires i < |rows|
    ensures DocumentRow(MakeDocuments(rows)[i]) == Some(rows[i])
  {
  }

  /** Building documents commutes with splitting the table. */
  lemma MakeDocumentsAppend(a: seq<Row>, b: seq<Row>)
    ensures MakeDocuments(a + b) == MakeDocuments(a) + MakeDocuments(b)
  {
  }

  /** The documents indexed by the script: every text and every title is
      normalized and already a fixed point of `clean_text`, and each is the
      cleaned column of its row. */
  lemma IndexedDocuments(rows: seq<Row>)
    ensures |MakeDocuments(CleanRows(rows))| == |rows|
    ensures forall i :: 0 <= i < |rows| ==>
      var d := MakeDocuments(CleanRows(rows))[i];
      && d.text == CleanText(rows[i].content)
      && d.metadata["title"] == CleanText(rows[i].title)
      && Normalized(d.text) && Normalized(d.metadata["title"])
      && CleanText(d.text) == d.text && CleanText(d.metadata["title"]) == d.metadata["title"]
  {
    forall i | 0 <= i < |rows|
      ensures Normalized(CleanText(rows[i].content)) && Normalized(CleanText(rows[i].title))
      ensures CleanText(CleanText(rows[i].content)) == CleanText(rows[i].content)
      ensures CleanText(CleanText(rows[i].title)) == CleanText(rows[i].title)
    {
      CleanTextNormalized(rows[i].content);
      CleanTextNormalized(rows[i].title);
      CleanTextIdempotent(rows[i].content);
      CleanTextIdempotent(rows[i].title);
    }
  }
}
