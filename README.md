# LlamaIndex blog chatbot: the deterministic core

The repository is a retrieval-augmented chatbot over the LlamaIndex blog. Three of its scripts hold logic of their own. Everything else is glue around LlamaIndex, Qdrant, OpenAI, requests/BeautifulSoup and Chainlit.

- **`data_crawler.py`** crawls the blog.
  - It builds one table row per blog card on the index page: the link as `source`, the absolute `url`, and the stripped title and date.
  - It then fills each row's `content` by crawling the post.
  - Crawling a post renders the tags under its content container as plain text. Headings become `Section:`/`Subsection:`/`SubSubsection:` lines, list items become `- ` lines, code is padded with newlines, and the other kept tags end with a newline.
- **`setup_data.py`** prepares the index.
  - It checks the required environment variables, failing on the first one that is missing.
  - It normalises the title and content columns with `clean_text`: every run of whitespace becomes one space, then the ends are stripped.
  - It turns each row into one `Document` whose metadata holds `source`, `title`, `url` and `date`.
- **`app.py`** composes the assistant's reply from the agent's answer and its sources. The reply is one of three things:
  - the answer, followed by a Title/URL/Date block taken from the first metadata entry of the first source;
  - the answer alone when there is no source or the metadata is empty;
  - a fixed error text when formatting fails.

How the model represents these:

- **Whitespace** is Python's whitespace set: the characters `str.isspace`, `str.strip()` and the `\s` of a `str` regular expression all agree on. It is the constant `Text.WHITESPACE`.
- **Strings** are `seq<char>`.
- **Parsed HTML** is given as input:
  - the post container is a sequence of (tag name, text) pairs in document order, or `None` when it was not found;
  - a blog card is its title text, its link and its date text.
- **The network** is a parameter: the `Page` each URL yields, either a request failure or a parsed page.
- **Environment variables** are a map from name to value.
- **Exceptions** are values:
  - the crawler and the environment check return `Result`/`Option` error values carrying what the source's `raise` message names;
  - `SetupData.CheckRequiredEnvironment` returns the environment error's text, formatted as the source's `raise` does;
  - `DataCrawler.CrawlErrorMessage` formats a crawl error the same way, but no contract refers to it;
  - the reply logic evaluates its `try` body to an `Outcome` that is either a sent text or a raised exception (`IndexError`, `AttributeError`, `KeyError`), and the two `except` clauses choose the reply from it.

`clean_text` is proved against an independent reference, `" ".join(s.split())`, through `SetupData.Words` and `SetupData.JoinWithSpaces`.

Files:

- `wrappers.dfy`: `Option` and `Result`.
- `text.dfy`: whitespace and `str.strip()`.
- `records.dfy`: the blog table's row.
- `setup_data.dfy`
- `data_crawler.dfy`
- `app.dfy`

## Model

| member | source | states |
|---|---|---|
| SetupData.CheckEnvironment | setup_data.py:16-19 | No error exactly when every required name is set. Otherwise the error names a missing variable before which every required name is set, i.e. the first missing one in list order. |
| SetupData.CheckRequiredEnvironment | setup_data.py:16-19 | Checks the six required names in order. No error exactly when all are set. Otherwise the text is "Environment variable NAME is not set.", naming the first one that is missing. |
| SetupData.CollapseEnds | setup_data.py:30 | Collapsing whitespace runs never lengthens the text, keeps it empty exactly when it was empty, and maps its first and last characters to a space exactly when they were whitespace. |
| SetupData.CollapseIsSingleSpaced | setup_data.py:30 | After the `\s+` replacement, every whitespace character is a plain space and no two whitespace characters are adjacent. |
| SetupData.CleanTextNormalized | setup_data.py:28-32 | `clean_text` output is single-spaced and has no leading or trailing whitespace. |
| SetupData.CollapseSingleSpaced | setup_data.py:30 | The replacement leaves an already single-spaced text unchanged. |
| SetupData.NormalizedIsFixedPoint | setup_data.py:28-32 | A text is a fixed point of `clean_text` if and only if it is single-spaced with non-space ends. |
| SetupData.CleanTextIdempotent | setup_data.py:28-32 | `clean_text(clean_text(s)) == clean_text(s)`. |
| SetupData.CollapseKeepsNonSpace | setup_data.py:30 | The replacement keeps the non-whitespace characters in order. |
| SetupData.CleanTextKeepsNonSpace | setup_data.py:30-31 | Deleting all whitespace from the input equals deleting all spaces from the output. |
| SetupData.CleanTextEmpty | setup_data.py:30-31 | The output is empty exactly when the input is empty or all whitespace. The output is never longer than the input. |
| SetupData.CleanTextIsJoinedWords | setup_data.py:28-32 | `clean_text(s)` equals `" ".join(s.split())`: its words, in order, joined by single spaces. |
| SetupData.WordsAreWords | setup_data.py:30 | Every word `split()` yields is non-empty and free of whitespace. |
| SetupData.JoinEnds | setup_data.py:31 | Joining whitespace-free words with single spaces gives an empty text exactly when there are no words. Otherwise the text starts with the first word's first character and ends with the last word's last character. |
| Text.Strip | setup_data.py:31 | The result of `str.strip()` has non-space ends. It is empty exactly when the input is all whitespace. |
| Text.StripBounds | setup_data.py:31 | `str.strip()` returns a slice of its input, and only whitespace lies outside that slice. |
| Text.StripKeepsNonSpace | setup_data.py:31 | Stripping removes no non-whitespace character. |
| SetupData.CleanRows | setup_data.py:34-35 | One row per input row. `title` and `content` are `clean_text` of the originals. `source`, `url` and `date` are unchanged. |
| SetupData.MakeDocuments | setup_data.py:57-68 | One document per row, in row order. The text is the row's content. The metadata has exactly the keys `source`, `title`, `url` and `date`, each copied from the row. |
| SetupData.DocumentRoundTrip | setup_data.py:57-68 | Every row can be read back from its document. |
| SetupData.MakeDocumentsAppend | setup_data.py:57-68 | Building documents for two tables in sequence gives the concatenation of their document lists. |
| SetupData.IndexedDocuments | setup_data.py:34-35 | Each indexed document's text and title are the row's cleaned content and title. Both are normalised and fixed points of `clean_text`. |
| DataCrawler.Fragment | data_crawler.py:29-42 | A tag contributes a non-empty fragment exactly when its name is among the eight extracted names. Every non-empty fragment ends with a newline. |
| DataCrawler.FragmentContainsText | data_crawler.py:31-42 | The stripped text of every kept tag occurs in its fragment. |
| DataCrawler.CrawlWebsite | data_crawler.py:13-47 | A request failure becomes the wrapped error carrying the URL and the reason. A fetched page without a container gives the unwrapped "content not found" error, not an empty text. Otherwise the text is the tags' fragments concatenated in tag order. |
| DataCrawler.RenderAppend | data_crawler.py:26-44 | Rendering the concatenation of two tag sequences is the concatenation of their renderings. |
| DataCrawler.RenderIgnoresSkippedTags | data_crawler.py:25-30 | The text equals the text of the kept tags alone. |
| DataCrawler.SkippedTagIsInvisible | data_crawler.py:25-30 | Inserting a tag not in the extracted list anywhere leaves the text unchanged. |
| DataCrawler.RenderEmpty | data_crawler.py:26-44 | The text is empty exactly when no tag is kept, so no tags give `""`. |
| DataCrawler.RenderEndsWithNewline | data_crawler.py:29-42 | A non-empty text ends with a newline. |
| DataCrawler.RenderContainsText | data_crawler.py:29-44 | The stripped text of every kept tag occurs in the post text. |
| DataCrawler.BuildRows | data_crawler.py:95-103 | One row per card, in card order. `source` is the card's link and `url` is the base URL followed by `source`. The title and date are stripped, and `content` is empty. Two rows have the same URL exactly when they have the same source. |
| DataCrawler.FillContents | data_crawler.py:110-112 | It succeeds exactly when every row's URL can be crawled, and then each row's content is its crawled text with nothing else changed. Otherwise it fails with the error of the first row that cannot be crawled. |
| App.Reply | app.py:27-53 | No source gives the answer alone. A missing metadata attribute gives the error text. `None` or empty metadata gives the answer alone. An entry lacking `title`, `url` or `date` gives the error text. Otherwise the answer is followed by `" \n\nSource: \nTitle: " + t + " \nURL: " + u + " \nDate: " + d`. |
| App.ReplyExtendsResponse | app.py:27-53 | Every reply other than the error text begins with the answer. |
| App.OnlyFirstSourceMatters | app.py:29 | Sources after the first never affect the reply. |
| App.OnlyFirstKeyMatters | app.py:29-32 | Metadata entries after the first, and later sources, never affect the reply. |
| App.FirstKeyNameIrrelevant | app.py:32-40 | The name of the first metadata key does not affect the reply, only its value does. |
| App.CitedReplyIsNotError | app.py:34-41 | A cited reply never equals the error text. |
| App.ErrorReplyIff | app.py:27-53 | For an answer that is not itself the error text, the reply is the error text if and only if the metadata attribute is missing or the cited entry lacks a field. |

## Left out

- Network access is a `Page` parameter, not a request:
  - `requests.get` and `raise_for_status`;
  - the index-page fetch with its status and title prints;
  - the `exit(1)` on failure.
- BeautifulSoup parsing is given as input: the tag sequence under the post container, and each card's title text, link and date text.
  - `find_all()` lists every descendant, so the text of nested kept tags appears once per enclosing kept tag. The model renders whatever sequence it is given.
  - A card lacking its title paragraph, link, `href` or date paragraph makes the source raise `AttributeError`/`KeyError`. Such cards are not modelled.
- Files and progress output are out of scope: the `llama_blog.txt` and CSV writes, `pd.read_csv`, `tqdm` and `print`.
- The DataFrame is a sequence of rows, and the loops update it by value.
  - Pandas' handling of missing cells is not modelled. A NaN title or content would make `clean_text` raise.
- The index side is library behaviour, not modelled:
  - Qdrant collection deletion, counting and indexing;
  - the OpenAI embedding settings;
  - `SentenceSplitter` chunking;
  - `utils/agent.py` entirely: the LLM, the vector store, re-ranking and the ReAct agent.
- `load_dotenv` is not modelled. The environment is the map after it has run.
- The Chainlit session is not modelled: session storage, the welcome message, asynchronous `send`, and `chat_engine.chat`.
  - That call sits outside the `try` at app.py:25, so its failures never become the error reply.
  - A failure of `send` itself, which the `except Exception` clause would also catch, is not modelled either.
- App.Reply: the answer is taken as its string form, `str(response)`. The model does not separate the source sending the response object (app.py:44, 48) from sending its formatted string (app.py:36).
- App.Reply: metadata values other than dictionaries of strings are not modelled, for example a value that is itself a string, which would raise `TypeError` and give the error text.
- Metadata entries are in insertion order. Duplicate keys are not excluded. That does not matter, because only the first entry is read.
- The asynchronous handlers are not modelled. Ordering between them does not affect the modelled logic.
