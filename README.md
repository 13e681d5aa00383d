# Sensitive-word filter and prompt assembly

This project models two pieces of a chat service's content-moderation backend
in Dafny:

- **The sensitive-word filter** (`app/utils/sensitive_word_filter.py`). It is an
  object holding a prefix tree (trie) of sensitive words and the set of loaded
  words. It has three operations:
  - loading a word list, which resets both and inserts every non-empty word;
  - inserting one word into the trie;
  - scanning a text. The scan lowercases the text once, then walks the trie
    from every start offset. From each offset it reports the slice of the
    lowercased text that spells the first (shortest) stored word starting
    there.
- **The prompt assembly of `generate_response`** (`app/services/ollama.py`). A
  list of role/content messages becomes one transcript: one
  `User: ...`/`Assistant: ...` line per message, followed by an `Assistant: `
  cue.

Files:

- `option.dfy` (module `Options`): the optional value used throughout.
- `trie.dfy` (module `Trie`): the trie as a node heap.
  - A `TrieNode` is a value: a map from characters to child ids, and a terminal flag.
  - The tree is a sequence of nodes whose root has id 0.
  - A ghost map `index` gives, for every character path in the tree, the id
    of its node. `WellFormed` ties that map to the real child links.
  - `Walk`, the executable descent from the root, is proved to agree with the
    map (`StoredIffContains`).
  - The two updates the source makes to nodes are `AddChild` (a new empty
    child) and `MarkEnd` (set the terminal flag). Each is proved to keep the
    tree well formed. The first keeps the stored words; the second adds
    exactly one word.
- `matching.dfy` (module `Matching`): what a scan reports, stated without any
  trie over a plain set of words.
  - Lowercasing: `LowerChar`, `Lower`.
  - The shortest word starting at an offset: `ShortestAt`.
  - The reports in order of start offset: `MatchesUpTo`, `Scan`.
  - Properties proved about them:
    - every report is a stored word occurring there;
    - it is the shortest one;
    - every occurrence of a stored word yields a report at its offset;
    - nothing is reported where no word starts;
    - every report is lowercase.
- `sensitive_word_filter.dfy` (module `WordFilter`): the class
  `SensitiveWordFilter`, with the fields `nodes`, `sensitiveWords` and the
  ghost `index`.
  - Its methods are the source's loops, proved against the specifications above.
  - `CheckText` returns exactly `WordsOf(Scan(StoredWords(), Lower(text)))`.
  - `AddToTrie` adds exactly its word to `StoredWords()` and removes no node,
    edge or terminal flag.
  - `LoadSensitiveWords` leaves `StoredWords()` equal to the non-empty words
    of the list.
- `ollama.dfy` (module `Ollama`): the prompt loop `BuildPrompt`, proved equal
  to the recursive `Prompt`. Lemmas give:
  - the prompt's length;
  - its split over concatenated conversations;
  - the exact line each message contributes, at the offset where it begins.

## Model

| member | source | states |
|---|---|---|
| Trie.AddChild | app/utils/sensitive_word_filter.py:32-33 | creating the missing child `c` of a node appends one fresh empty node, makes it the child on `c`, and keeps every other node, edge and terminal flag |
| Trie.MarkEnd | app/utils/sensitive_word_filter.py:35 | marking a node terminal changes only that node's flag and keeps all edges |
| Trie.StoredIffContains | app/utils/sensitive_word_filter.py:30-35 | a word is stored in the tree iff walking its characters from the root ends at a terminal node |
| Trie.WalkFrom | app/utils/sensitive_word_filter.py:55-63 | walking from the node of path `p` along `s` reaches exactly the node of `p + s`, or fails when that path is not in the tree |
| Trie.PrefixClosed | app/utils/sensitive_word_filter.py:31-34 | every prefix of a path in the tree is a path in the tree |
| Trie.ChildLookup | app/utils/sensitive_word_filter.py:34 | following the child on `c` from the node of `s` reaches the node of `s + [c]` |
| Trie.NoChild | app/utils/sensitive_word_filter.py:60-61 | a missing edge on `c` means the path `s + [c]` is not in the tree |
| Trie.AddChildKeepsWellFormed | app/utils/sensitive_word_filter.py:32-33 | adding a missing child keeps the tree well formed, names the new path and keeps the set of stored words |
| Trie.MarkEndAddsWord | app/utils/sensitive_word_filter.py:35 | marking the node of `w` terminal keeps the tree well formed and adds exactly `w` to the stored words |
| Matching.LowerChar | app/utils/sensitive_word_filter.py:51 | a character changes under lowercasing iff it is a capital, and the result is never a capital |
| Matching.Lower | app/utils/sensitive_word_filter.py:51 | lowercasing keeps the length, leaves no capital in the result, keeps every non-capital in place and changes every capital |
| Matching.LowerIdempotent | app/utils/sensitive_word_filter.py:51 | lowercasing a lowercased text changes nothing |
| Matching.ShortestAt | app/utils/sensitive_word_filter.py:56-69 | when Some, the length of a word of the set at offset `i` with no shorter one at least `len` long; when None, no such word at any length |
| Matching.MatchesUpTo | app/utils/sensitive_word_filter.py:54-69 | at most one report per start offset, in strictly increasing order of start offset, each a non-empty stored word equal to the text slice it covers |
| Matching.ScanStepSome | app/utils/sensitive_word_filter.py:66-68 | scanning one more offset where a word starts appends the slice of the shortest such word |
| Matching.ScanStepNone | app/utils/sensitive_word_filter.py:59-61 | scanning one more offset where no word starts adds nothing |
| Matching.MatchIsShortest | app/utils/sensitive_word_filter.py:66-69 | no shorter non-empty stored word starts where a report starts: the first terminal node reached wins |
| Matching.Complete | app/utils/sensitive_word_filter.py:54-69 | every occurrence of a non-empty stored word yields a report at its start offset, no longer than that word |
| Matching.OnlyWhereAWordOccurs | app/utils/sensitive_word_filter.py:56-61 | nothing is reported from an offset where no non-empty stored word starts |
| Matching.ReportedAreLower | app/utils/sensitive_word_filter.py:67-68 | every reported string is a slice of the lowercased text and so is its own lowercase |
| Matching.CapitalizedNeverReported | app/utils/sensitive_word_filter.py:24-26 | a stored word holding a capital is never reported, whatever the text |
| Matching.VerbatimScamMissed | app/utils/sensitive_word_filter.py:24-26 | with the word "Scam" stored verbatim, scanning "SCAM" reports nothing |
| Matching.Folded | app/utils/sensitive_word_filter.py:51 | every word of the lowercased word set is its own lowercase, so each one can be met by a slice of the lowercased text |
| Matching.NoWordNoMatch | app/utils/sensitive_word_filter.py:54-61 | where no word of the set occurs anywhere in the text, the scan reports nothing |
| Matching.FoldedFindsEveryOccurrence | app/utils/sensitive_word_filter.py:51 | with lowercased words stored, every case-insensitive occurrence of a non-empty word yields a report at its offset, no longer than the word |
| WordFilter.InsertStepNewChild | app/utils/sensitive_word_filter.py:32-34 | one insertion step that creates a child keeps the tree well formed and its stored words, and advances to the node of the next prefix |
| WordFilter.InsertStepExistingChild | app/utils/sensitive_word_filter.py:34 | one insertion step along an existing child advances to the node of the next prefix without changing the tree |
| WordFilter.InsertFinish | app/utils/sensitive_word_filter.py:35 | marking the node reached at the end of the word adds exactly that word to the stored words and keeps the tree well formed |
| WordFilter.SliceChild | app/utils/sensitive_word_filter.py:63 | following the edge on `t[j]` from the node of `t[i..j]` reaches the node of `t[i..j + 1]` |
| WordFilter.SliceNoChild | app/utils/sensitive_word_filter.py:60-61 | a missing edge on `t[j]` from the node of `t[i..j]` means `t[i..j + 1]` is not a path of the tree |
| WordFilter.NoLongerWord | app/utils/sensitive_word_filter.py:60-61 | when the walk from offset `i` stops on a missing edge, no stored word of that length or longer starts at `i` |
| WordFilter.SensitiveWordFilter.constructor | app/utils/sensitive_word_filter.py:11-13 | a new filter has a single empty root node, no stored words and no loaded words |
| WordFilter.SensitiveWordFilter.AddToTrie | app/utils/sensitive_word_filter.py:28-35 | the stored words become the old ones plus `word`, the walk for `word` ends at a terminal node, nothing is removed and the loaded word set is untouched |
| WordFilter.SensitiveWordFilter.LoadSensitiveWords | app/utils/sensitive_word_filter.py:15-26 | after a load, the loaded word set and the words stored in the trie are both exactly the non-empty words of the list |
| WordFilter.SensitiveWordFilter.LoadSensitiveWordsFolded | app/utils/sensitive_word_filter.py:15-26 | the corrected load: the loaded word set is the non-empty words, and the trie stores exactly their lowercase forms |
| WordFilter.SensitiveWordFilter.CheckText | app/utils/sensitive_word_filter.py:37-71 | the reports are exactly the reference scan of the lowercased text against the stored words; the flag is true iff something was reported; an empty text gives `(false, [])` |
| WordFilter.SensitiveWordFilter.FirstEndFrom | app/utils/sensitive_word_filter.py:55-69 | the walk from offset `i` returns the length of the shortest non-empty stored word starting at `i`, or None when there is none |
| Ollama.Prompt | app/services/ollama.py:16-21 | the prompt always ends with the `Assistant: ` cue, and an empty conversation gives exactly that cue |
| Ollama.TranscriptAppend | app/services/ollama.py:17-19 | the transcript of two conversations in a row is the concatenation of their transcripts |
| Ollama.TranscriptSnoc | app/services/ollama.py:17-19 | one more message appends exactly its line to the transcript |
| Ollama.PromptLength | app/services/ollama.py:16-21 | the prompt's length is the sum of all line lengths (label, content, newline) plus the 11 characters of the cue |
| Ollama.LineInPrompt | app/services/ollama.py:18-19 | message `k` appears as `User: <content>\n` when its role is exactly "user", and as `Assistant: <content>\n` otherwise, at the offset where the lines before it end |
| Ollama.BuildPrompt | app/services/ollama.py:16-21 | the loop builds exactly the prompt of the recursive definition |

## Left out

- The database read of `load_sensitive_words` (line 21) is not modelled. Its
  asynchronous iteration is not modelled either. The documents' `word` fields
  are a parameter instead (`seq<string>`); a document without the field
  counts as an empty word.
- The module-level shared instance (line 74) and any concurrent use of it are
  not modelled.
- Matching.Lower folds only ASCII `A`-`Z` and the Latin-1 capitals `U+00C0` to
  `U+00DE` (except `U+00D7`). The full Unicode `str.lower()` (other scripts,
  one-to-many mappings such as `U+0130`) is not modelled.
- The trie's nodes live in one sequence, and child pointers are ids into it.
  Object identity and aliasing of `TrieNode` objects are not modelled. The
  source never shares a node between two parents.
- WordFilter.SensitiveWordFilter.AddToTrie: states the new stored-word set,
  and that every existing node, edge and flag is kept. It does not state the
  exact set of new tree paths (the prefixes of the word).
- `check_text`'s inner loop is the separate method `FirstEndFrom`. Its outer
  loop calls it once per start offset.
- The HTTP request of `generate_response` is not modelled: lines 23-43, the
  request body, the model name, the timeout, the response parsing and the
  fallback messages. Nor is the rest of the service: routing,
  authentication, conversation storage and term metadata such as category or
  severity.
- A message without a `role` or `content` key makes the source raise
  `KeyError`. A `Message` always has both fields, so this error is not
  modelled.

Facts about the source that the model keeps:

- Words are inserted exactly as loaded (lines 26 and 31), and only the
  scanned text is lowercased (line 51); see Findings.
- Each report is a slice of the lowercased text (line 67), not the stored
  word it matched.
- A trie node holds only its children and its terminal flag (lines 7-8).
- `sensitive_words` is filled on load (line 25) but never read by
  `check_text` (lines 37-71).

## Findings

| source | as written | input that shows it | evidently intended | confidence | as-written member | corrected member |
|---|---|---|---|---|---|---|
| app/utils/sensitive_word_filter.py:24-26 | words are inserted into the trie as loaded, while `check_text` walks the lowercased text (line 51), so a word holding a capital can never be reached | stored word `"Scam"`, text `"SCAM"`: the lowercased text `"scam"` has no path to the `"Scam"` terminal, so nothing is reported | insert the lowercase of every word, so matching is case-insensitive as the lowercasing on line 51 intends | high; not executed | Matching.VerbatimScamMissed | WordFilter.SensitiveWordFilter.LoadSensitiveWordsFolded |

`Matching.CapitalizedNeverReported` states the general form of the finding.
`Matching.FoldedFindsEveryOccurrence` proves the intended case-insensitive
completeness for the word set that the corrected load stores
(`Matching.Folded`).
