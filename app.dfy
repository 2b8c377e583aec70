/** The chat handler's reply: the text the assistant sends back, computed
    from the agent's answer and the sources the answer was drawn from. */
module App {
  import opened Wrappers

  /** A metadata dictionary, as its entries in insertion order; each value
      is itself a dictionary of fields. Duplicate keys are not excluded,
      which does not matter because only the first entry is read. */
  type Metadata = seq<(string, map<string, string>)>

  /** The `metadata` attribute of a source's raw output: missing, `None`,
      or a dictionary. */
  datatype RawMetadata = NoAttribute | NoneValue | Dict(entries: Metadata)

  /** One source of a response. */
  datatype Source = Source(metadata: RawMetadata)

  /** The exceptions the reply code can raise. */
  datatype Exception = IndexError | AttributeError | KeyError

  /** What the body of the `try` block does: send a message or raise. */
  datatype Outcome = Sent(content: string) | Raised(exception: Exception)

  const ERROR_REPLY: string := "An error occurred while processing your request."

  /** The source block appended to a cited answer. */
  function Citation(title: string, url: string, date: string): string
  {
    " \n\nSource: \nTitle: " + title + " \nURL: " + url + " \nDate: " + date
  }

  /** A dictionary is falsy exactly when it is `None` or empty. */
  predicate Truthy(m: RawMetadata)
    requires !m.NoAttribute?
  {
    m.Dict? && m.entries != []
  }

  /** Looks a field up in a dictionary, raising `KeyError` when it is absent. */
  function Field(fields: map<string, string>, key: string): (r: Result<string, Exception>)
    ensures r.Success? <==> key in fields
    ensures r.Success? ==> r.value == fields[key]
    ensures r.Failure? ==> r.error == KeyError
  {
    if key in fields then Success(fields[key]) else Failure(KeyError)
  }

  /** The body of the `try` block: the first source's metadata, then the
      fields of the entry under its first key. */
  function TryBody(response: string, sources: seq<Source>): Outcome
  {
    if sources == [] then Raised(IndexError)
    else
      var metadata := sources[0].metadata;
      if metadata.NoAttribute? then Raised(AttributeError)
      else if !Truthy(metadata) then Sent(response)
      else
        var entry := metadata.entries[0].1;
        match (Field(entry, "title"), Field(entry, "url"), Field(entry, "date"))
        case (Failure(e), _, _) => Raised(e)
        case (Success(_), Failure(e), _) => Raised(e)
        case (Success(_), Success(_), Failure(e)) => Raised(e)
        case (Success(t), Success(u), Success(d)) => Sent(response + Citation(t, u, d))
  }

  /** The entry the reply cites, when there is one to look at: the value
      under the first key of the first source's metadata. */
  function CitedEntry(sources: seq<Source>): Option<map<string, string>>
  {
    if sources != [] && sources[0].metadata.Dict? && sources[0].metadata.entries != [] then
      Some(sources[0].metadata.entries[0].1)
    else
      None
  }

  predicate Complete(entry: map<string, string>)
  {
    "title" in entry && "url" in entry && "date" in entry
  }

  /** The reply: what the `try` block sends, the answer alone on
      `IndexError`, and the fixed error text on any other exception. */
  function Reply(response: string, sources: seq<Source>): (reply: string)
    ensures sources == [] ==> reply == response
    ensures sources != [] && sources[0].metadata.NoAttribute? ==> reply == ERROR_REPLY
    ensures sources != [] && (sources[0].metadata.NoneValue? || sources[0].metadata == Dict([])) ==>
      reply == response
    ensures CitedEntry(sources).Some? && !Complete(CitedEntry(sources).value) ==> reply == ERROR_REPLY
    ensures CitedEntry(sources).Some? && Complete(CitedEntry(sources).value) ==>
      var e := CitedEntry(sources).value;
      reply == response + Citation(e["title"], e["url"], e["date"])
  {
    match TryBody(response, sources)
    case Sent(content) => content
    case Raised(IndexError) => response
    case Raised(_) => ERROR_REPLY
  }

  // ---------------------------------------------------------------------
  // Properties
  // ---------------------------------------------------------------------

  /** Either the reply is the fixed error text, or it begins with the answer. */
  lemma ReplyExtendsResponse(response: string, sources: seq<Source>)
    ensures Reply(response, sources) == ERROR_REPLY || response <= Reply(response, sources)
  {
  }

  /** Only the first source is consulted. */
  lemma OnlyFirstSourceMatters(response: string, s: Source, rest: seq<Source>)
    ensures Reply(response, [s] + rest) == Reply(response, [s])
  {
  }

  /** Only the first key of the metadata is consulted. */
  lemma OnlyFirstKeyMatters(response: string, entry: (string, map<string, string>), rest: Metadata, others: seq<Source>)
    ensures Reply(response, [Source(Dict([entry] + rest))] + others) == Reply(response, [Source(Dict([entry]))])
  {
  }

  /** The name of the first key plays no part either. */
  lemma FirstKeyNameIrrelevant(response: string, k1: string, k2: string, fields: map<string, string>)
    ensures Reply(response, [Source(Dict([(k1, fields)]))]) == Reply(response, [Source(Dict([(k2, fields)]))])
  {
  }

  /** A cited reply can always be told apart from the error text: the error
      text has no line break, the source block does. */
  lemma CitedReplyIsNotError(response: string, title: string, url: string, date: string)
    ensures response + Citation(title, url, date) != ERROR_REPLY
  {
    var r := response + Citation(title, url, date);
    assert r[|response| + 1] == '\n';
    if r == ERROR_REPLY {
      assert |response| + 1 < 16;
      ErrorReplyStart(|response| + 1);
    }
  }

  /** The error text starts with no line break (its first 16 characters). */
  lemma ErrorReplyStart(j: nat)
    requires j < 16
    ensures ERROR_REPLY[j] != '\n'
  {
    var start := "An error occurre";
    assert ERROR_REPLY[..16] == start;
    assert ERROR_REPLY[j] == start[j];
  }

  /** The reply is the error text exactly when the first source cannot be
      cited: its metadata attribute is missing, or the cited entry lacks a
      field (assuming the answer is not itself the error text). */
  lemma {:induction false} ErrorReplyIff(response: string, sources: seq<Source>)
    requires response != ERROR_REPLY
    ensures Reply(response, sources) == ERROR_REPLY <==>
      (sources != [] && sources[0].metadata.NoAttribute?) ||
      (CitedEntry(sources).Some? && !Complete(CitedEntry(sources).value))
  {
    var e := CitedEntry(sources);
    if e.Some? && Complete(e.value) {
      CitedReplyIsNotError(response, e.value["title"], e.value["url"], e.value["date"]);
    }
  }
}
