# Flashcard equivalence (`Card.match`) in Dafny

This project models the flashcard entity of the Obsidian flashcards plugin
(`src/entities/card.ts`) and proves what its one piece of logic, `match`,
decides. `match` compares a locally built card with the card record fetched
from the remote flashcard store (Anki). It reports a match when:

- the two cards have different numbers of fields (a switch of note type,
  which the code does not try to resolve); or
- every remote field passes its check and the tag lists compare equal.

A field passes its check under two rules:

- An ordinary field passes when its remote `.value` equals the local value.
- The `Source` field passes when either side's Source string is missing or
  empty, or when both strings yield the same filename under
  `extractFilenameFromSource`.

That helper takes, in this order:

1. the capture of the first wiki link `[[...]]`;
2. otherwise the URI-decoded capture of the first `file=...`;
3. otherwise the whole string.

Files:

- `completion.dfy` (module `Completions`): `Option`, and `Completion`, which
  is either a normal JavaScript result or a thrown exception.
- `patterns.dfy` (module `Patterns`): the two regular expressions
  `/\[\[([^\]]+)\]\]/` and `/file=([^#&]+)/`. Each is given as a declarative
  predicate saying which spans match (`WikiMatch`, `UrlMatch`, with the
  leftmost versions `LeftmostWiki`, `LeftmostUrl`). Each also has a scan
  (`WikiScan`, `UrlScan`) that finds the leftmost match and is proved
  against the predicate.
- `card.dfy` (module `Cards`): `ExtractFilenameFromSource`, the class
  `Card` with its constructor, `GetCodeDeckNameExtension` and `Match`, and
  the lemmas about them.

`Match` is a method with the loop of the source. It is proved equal to
`Verdict`, a closed formula over the remote entries. The lemmas are stated
about `Verdict`. `Verdict` is built on `FieldCheck`, the check one remote
entry undergoes in the loop body (card.ts:67-88), and on `SourceCheck`,
its Source branch (card.ts:68-85).

Collaborators whose code is not part of this model are parameters:

- `decodeUri : string -> Completion<string>` stands for
  `decodeURIComponent`. `Throw` means it raised a URIError, which then
  propagates out of `match`.
- `arraysEqual` stands for the tag comparison of `src/utils`. Nothing is
  assumed about it.
- `codeDeckExtension` stands for the constant of `src/conf/constants`.

Two points of the code's behaviour deserve a note:

- `match` returns `true`, meaning "match", when the arities differ
  (card.ts:61-63, whose comment says the switch of model "cannot be
  handeled").
- Although the comment at card.ts:69 says the Source comparison should
  "allow for block ID updates", the wiki capture keeps the `#^id` suffix of
  `[[name#^id]]`. A changed block id in wiki form therefore blocks a match
  (`WikiBlockIdChangeMismatches`). The URL capture stops at `#`, so a changed
  fragment in URL form is ignored (`UrlFragmentChangeIgnored`).
- `match` is not reflexive in every case. A card compared with its own copy
  matches when the tags compare equal and its Source extracts cleanly
  (`CopyMatches`). But when the `file=` value of its Source is malformed,
  `decodeURIComponent` throws at card.ts:104, and so does `match`
  (`CopyCanThrow`).

## Model

| member | source | states |
|---|---|---|
| `Patterns.WikiScan` | src/entities/card.ts:96 | the scan from position i returns the leftmost wiki-link match starting at or after i, and None exactly when there is no such match |
| `Patterns.WikiCapture` | src/entities/card.ts:96-99 | None exactly when the string holds no `[[`, nonempty run without `]`, `]]`; otherwise the capture of the leftmost match (which stops at the first `]`) |
| `Patterns.UrlScan` | src/entities/card.ts:102 | the scan from position i returns the leftmost `file=` match with a nonempty greedy run without `#`/`&`, and None exactly when there is none |
| `Patterns.UrlCapture` | src/entities/card.ts:102-105 | None exactly when no `file=` is followed by a character other than `#` and `&`; otherwise the longest such run after the leftmost matching `file=` |
| `Cards.ExtractFilenameFromSource` | src/entities/card.ts:94-108 | a wiki match wins and yields its capture; with no wiki match, a URL match yields the decoder's completion of its capture (an exception included); with neither, the input is returned unchanged |
| `Cards.WikiLinkCapture` | src/entities/card.ts:96-99 | a string that starts with `[[body]]`, where body is nonempty and has no `]`, yields body, whatever follows |
| `Cards.WikiLinkKeepsBlockId` | src/entities/card.ts:96-99 | `[[name#^id]]` yields `name#^id`: the block id is not stripped |
| `Cards.UrlLinkDropsFragment` | src/entities/card.ts:102-105 | `prefix + "file=" + f + "#" + fragment`, where the prefix holds no `file=` and nothing holds a `[`, yields the decoding of f: the fragment is excluded |
| `Cards.Card.constructor` | src/entities/card.ts:20-47 | every argument is copied into its field (containsCode defaults to false); mediaBase64Encoded and oldTags start empty and modelName is "" |
| `Cards.Card.GetCodeDeckNameExtension` | src/entities/card.ts:110-112 | the code-deck extension when the card contains code, the empty string otherwise |
| `Cards.Card.Match` | src/entities/card.ts:54-92 | the loop's outcome equals the closed formula `Verdict`; an arity mismatch gives true; when all entries pass the result is the tag comparison; a failing non-Source field means the result is not true |
| `Cards.Card.VerdictAtStop` | src/entities/card.ts:66-89 | when every earlier entry passed and entry k does not, entry k's check (false or an exception) is the outcome of `match` |
| `Cards.Card.VerdictWithoutExceptions` | src/entities/card.ts:60-91 | with no exception, `match` is true exactly when the arities differ, or every remote entry passes and the tags compare equal |
| `Cards.Card.VerdictFromChecks` | src/entities/card.ts:66-91 | two remote cards with the same tags whose entries give the same check results position by position get the same outcome |
| `Cards.Card.VerdictIgnoresFieldOrder` | src/entities/card.ts:60-91 | permuting the remote entries (another `Object.entries` order) keeps the outcome when no Source comparison throws |
| `Cards.Card.VerdictTrueExactly` | src/entities/card.ts:60-91 | whatever exceptions occur, `match` reports true exactly when the arities differ, or every remote entry passes and the tags compare equal |
| `Cards.Card.VerdictTrueIgnoresFieldOrder` | src/entities/card.ts:60-91 | whether `match` reports true never depends on the order of the remote entries, exceptions included |
| `Cards.Card.CopyMatches` | src/entities/card.ts:60-91 | a remote card copied field by field from the local one matches it when the local Source extracts without an exception, with the tag comparison deciding |
| `Cards.Card.CopyCanThrow` | src/entities/card.ts:102-104 | a card whose only field is the Source `file=%` makes `match` throw against its own copy when the decoder rejects `%` |
| `Cards.Card.SourceWithEmptySideIgnored` | src/entities/card.ts:68-85 | when the local Source is absent or empty, or the remote Source value is empty, the Source field plays no part: the outcome is decided by the other fields and the tags alone |
| `Cards.Card.SourceFilenameDecides` | src/entities/card.ts:74-82 | with both Source strings nonempty, every other field passing and no exception, `match` is true exactly when the extracted filenames are equal and the tags compare equal |
| `Cards.Card.SourceComparedByFilename` | src/entities/card.ts:76-82 | replacing the remote Source value by any other nonempty string with the same extracted filename leaves the outcome unchanged |
| `Cards.Card.WikiBlockIdChangeMismatches` | src/entities/card.ts:76-82 | a local `[[name#^a]]` against a remote `[[name#^b]]` with a different block id fails the Source check |
| `Cards.Card.UrlFragmentChangeIgnored` | src/entities/card.ts:102-105 | a local and a remote URL-form Source, each with its own prefix free of `file=` and `[`, with the same `file=` value and any fragments, pass the Source check when the value decodes |

## Left out

- The abstract `toString`, `getCard`, `getMedias` and `getIdFormat` have no bodies in this class, and their subclasses are not part of this model.
- The comparison of model names is commented out in the source, so it is not modelled.
- `decodeURIComponent` is a parameter. Its percent-decoding and UTF-8 rules are not modelled; only the fact that it may throw is kept.
- `arraysEqual` is a parameter. Nothing is proved about it, so tag-order sensitivity is not claimed.
- The value of `codeDeckExtension` lives in a file that is not part of this model. It is a parameter of `GetCodeDeckNameExtension`.
- The JavaScript regular-expression engine in general is not modelled. Only the two fixed patterns are modelled, as leftmost scans.
- JavaScript strings are UTF-16 code-unit sequences. The model uses Dafny's `char` sequence, which makes no difference to the ASCII patterns involved.
- The remote card's metadata beyond field values and tags is not modelled, and neither is any sync, network or media behaviour.
- Property lookups that reach `Object.prototype` (a remote field named `constructor`, say) yield a non-string. They compare unequal, exactly like `undefined`, so they are modelled as an absent key. Keys with special meaning such as `__proto__` are not modelled.
- The remote entry values are taken to be strings. A `null` or non-string `.value` sent by the store is not modelled.
- `Card.fields`, `Card.tags` and `Card.mediaNames` hold the caller's record and arrays by value. The source stores references to them (card.ts:36, :40, :42), which the caller may later change; `match` reads them only at call time, so the model of it is unaffected.
- JavaScript numbers (`id`, the offsets) are modelled as unbounded integers. No code here does arithmetic on them.
