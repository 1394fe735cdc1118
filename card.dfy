/** The flashcard entity of src/entities/card.ts: the data a locally built
    card holds, and the test `match` that decides whether the card fetched
    from the remote flashcard store already equals it.

    Collaborators whose code is not part of this model are parameters:
    `decodeUri` stands for `decodeURIComponent` (Throw where it raises a
    URIError), `arraysEqual` for the tag-list comparison imported from
    src/utils, and `codeDeckExtension` for the constant of src/conf. */
module Cards {
  import opened Completions
  import opened Patterns

  /** One item of `Object.entries(card.fields)` on the remote card: the
      field name and the field's `.value`. */
  datatype RemoteEntry = RemoteEntry(name: string, value: string)

  /** The remote card record as `match` reads it: its field entries in the
      order `Object.entries` yields them, and its tags. */
  datatype RemoteCard = RemoteCard(fields: seq<RemoteEntry>, tags: seq<string>)

  /** The one field compared through the filename of its link. */
  const SourceField: string := "Source"

  /** `extractFilenameFromSource`: the capture of the first wiki link
      `[[...]]` if there is one; otherwise the URI-decoded capture of the
      first `file=...`; otherwise the string unchanged. */
  function ExtractFilenameFromSource(source: string, decodeUri: string -> Completion<string>): (r: Completion<string>)
    ensures !NoWiki(source) ==> exists i, j :: LeftmostWiki(source, i, j) && r == Normal(source[i + 2..j])
    ensures forall i, j :: LeftmostWiki(source, i, j) ==> r == Normal(source[i + 2..j])
    ensures NoWiki(source) && !NoUrl(source) ==>
      exists i, j :: LeftmostUrl(source, i, j) && r == decodeUri(source[i + 5..j])
    ensures NoWiki(source) ==> forall i, j :: LeftmostUrl(source, i, j) ==> r == decodeUri(source[i + 5..j])
    ensures NoWiki(source) && NoUrl(source) ==> r == Normal(source)
  {
    match WikiCapture(source)
    case Some(name) => Normal(name)
    case None =>
      match UrlCapture(source)
      case Some(encoded) => decodeUri(encoded)
      case None => Normal(source)
  }

  class Card {
    var id: int
    var deckName: string
    var initialContent: string
    var fields: map<string, string>
    var reversed: bool
    var initialOffset: int
    var endOffset: int
    var tags: seq<string>
    var inserted: bool
    var mediaNames: seq<string>
    var mediaBase64Encoded: seq<string>
    var oldTags: seq<string>
    var containsCode: bool
    var modelName: string

    /** Copies every argument into its field and starts with no encoded
        media, no old tags and an empty model name. */
    constructor (id: int, deckName: string, initialContent: string, fields: map<string, string>,
                 reversed: bool, initialOffset: int, endOffset: int, tags: seq<string>,
                 inserted: bool, mediaNames: seq<string>, containsCode: bool := false)
      ensures this.id == id && this.deckName == deckName && this.initialContent == initialContent
      ensures this.fields == fields && this.reversed == reversed
      ensures this.initialOffset == initialOffset && this.endOffset == endOffset
      ensures this.tags == tags && this.inserted == inserted && this.mediaNames == mediaNames
      ensures this.mediaBase64Encoded == [] && this.oldTags == []
      ensures this.containsCode == containsCode && this.modelName == ""
    {
      this.id := id;
      this.deckName := deckName;
      this.initialContent := initialContent;
      this.fields := fields;
      this.reversed := reversed;
      this.initialOffset := initialOffset;
      this.endOffset := endOffset;
      this.tags := tags;
      this.inserted := inserted;
      this.mediaNames := mediaNames;
      this.mediaBase64Encoded := [];
      this.oldTags := [];
      this.containsCode := containsCode;
      this.modelName := "";
    }

    /** The suffix a deck name takes for a card that contains code. */
    function GetCodeDeckNameExtension(codeDeckExtension: string): (r: string)
      reads this
      ensures containsCode ==> r == codeDeckExtension
      ensures !containsCode ==> r == ""
    {
      if containsCode then codeDeckExtension else ""
    }

    /** `this.fields[name]`, with None for `undefined`. */
    function LocalValue(name: string): (r: Option<string>)
      reads this
    {
      if name in fields then Some(fields[name]) else None
    }

    /** The Source comparison for a remote Source value: it takes part only
        when both Source strings are truthy (present and nonempty), and then
        compares the extracted filenames, the remote one first. */
    function SourceCheck(ankiSource: string, decodeUri: string -> Completion<string>): (r: Completion<bool>)
      reads this
    {
      var currentSource := LocalValue(SourceField);
      if currentSource.Some? && currentSource.value != "" && ankiSource != "" then
        match ExtractFilenameFromSource(ankiSource, decodeUri)
        case Throw => Throw
        case Normal(ankiFilename) =>
          match ExtractFilenameFromSource(currentSource.value, decodeUri)
          case Throw => Throw
          case Normal(currentFilename) => Normal(ankiFilename == currentFilename)
      else Normal(true)
    }

    /** What one remote entry does to the loop of `match`: Normal(true)
        lets it go on, Normal(false) ends it with `false`, Throw is an
        exception escaping from it. */
    function FieldCheck(e: RemoteEntry, decodeUri: string -> Completion<string>): (r: Completion<bool>)
      reads this
    {
      if e.name == SourceField then SourceCheck(e.value, decodeUri)
      else Normal(LocalValue(e.name) == Some(e.value))
    }

    /** Every remote entry lets the loop go on. */
    predicate AllPass(entries: seq<RemoteEntry>, decodeUri: string -> Completion<string>)
      reads this
    {
      forall k :: 0 <= k < |entries| ==> FieldCheck(entries[k], decodeUri) == Normal(true)
    }

    /** No remote entry raises an exception. */
    predicate NoThrow(entries: seq<RemoteEntry>, decodeUri: string -> Completion<string>)
      reads this
    {
      forall k :: 0 <= k < |entries| ==> FieldCheck(entries[k], decodeUri) != Throw
    }

    /** Entry k is where the loop stops: every earlier entry passed and
        entry k does not. */
    predicate StopsAt(entries: seq<RemoteEntry>, k: int, decodeUri: string -> Completion<string>)
      reads this
    {
      0 <= k < |entries| && FieldCheck(entries[k], decodeUri) != Normal(true) &&
      forall i :: 0 <= i < k ==> FieldCheck(entries[i], decodeUri) == Normal(true)
    }

    /** The outcome of `match` as a closed formula over the remote entries:
        true on an arity mismatch; otherwise an exception if the first entry
        that fails throws; otherwise false if some entry fails; otherwise
        the tag comparison. */
    function Verdict(card: RemoteCard, decodeUri: string -> Completion<string>,
                     arraysEqual: (seq<string>, seq<string>) -> bool): (r: Completion<bool>)
      reads this
    {
      if |card.fields| != |fields| then Normal(true)
      else if exists k :: 0 <= k < |card.fields| && StopsAt(card.fields, k, decodeUri) &&
                          FieldCheck(card.fields[k], decodeUri) == Throw then Throw
      else if exists k :: 0 <= k < |card.fields| && FieldCheck(card.fields[k], decodeUri) == Normal(false) then
        Normal(false)
      else Normal(arraysEqual(card.tags, tags))
    }

    /** The loop stops at one entry at most. */
    lemma StopsAtUnique(entries: seq<RemoteEntry>, k: int, k': int, decodeUri: string -> Completion<string>)
      requires StopsAt(entries, k, decodeUri) && StopsAt(entries, k', decodeUri)
      ensures k == k'
    {
    }

    /** When the loop stops at entry k, that entry's check is the outcome. */
    lemma VerdictAtStop(card: RemoteCard, k: int, decodeUri: string -> Completion<string>,
                        arraysEqual: (seq<string>, seq<string>) -> bool)
      requires |card.fields| == |fields|
      requires StopsAt(card.fields, k, decodeUri)
      ensures Verdict(card, decodeUri, arraysEqual) == FieldCheck(card.fields[k], decodeUri)
    {
      forall k' | StopsAt(card.fields, k', decodeUri) ensures k' == k {
        StopsAtUnique(card.fields, k, k', decodeUri);
      }
    }

    /** `match`: whether the remote card equals this one. */
    method Match(card: RemoteCard, decodeUri: string -> Completion<string>,
                 arraysEqual: (seq<string>, seq<string>) -> bool) returns (r: Completion<bool>)
      ensures r == Verdict(card, decodeUri, arraysEqual)
      ensures |card.fields| != |fields| ==> r == Normal(true)
      ensures |card.fields| == |fields| && AllPass(card.fields, decodeUri) ==>
        r == Normal(arraysEqual(card.tags, tags))
      ensures |card.fields| == |fields| ==>
        forall k :: (0 <= k < |card.fields| && card.fields[k].name != SourceField &&
                     LocalValue(card.fields[k].name) != Some(card.fields[k].value)) ==> r != Normal(true)
    {
      var entries := card.fields;
      if |entries| != |fields| {
        return Normal(true);
      }
      for k := 0 to |entries|
        invariant forall i :: 0 <= i < k ==> FieldCheck(entries[i], decodeUri) == Normal(true)
      {
        var fieldName := entries[k].name;
        if fieldName == SourceField {
          var ankiSource := entries[k].value;
          var currentSource := LocalValue(fieldName);
          if currentSource.Some? && currentSource.value != "" && ankiSource != "" {
            var ankiFilename := ExtractFilenameFromSource(ankiSource, decodeUri);
            if ankiFilename.Throw? {
              VerdictAtStop(card, k, decodeUri, arraysEqual);
              return Throw;
            }
            var currentFilename := ExtractFilenameFromSource(currentSource.value, decodeUri);
            if currentFilename.Throw? {
              VerdictAtStop(card, k, decodeUri, arraysEqual);
              return Throw;
            }
            if ankiFilename.value != currentFilename.value {
              VerdictAtStop(card, k, decodeUri, arraysEqual);
              return Normal(false);
            }
          }
          continue;
        }
        if LocalValue(fieldName) != Some(entries[k].value) {
          VerdictAtStop(card, k, decodeUri, arraysEqual);
          return Normal(false);
        }
      }
      return Normal(arraysEqual(card.tags, tags));
    }

    // -------------------------------------------------------------------
    // Properties of `match`
    // -------------------------------------------------------------------

    /** When no Source comparison throws, the loop's order does not matter:
        `match` is true on an arity mismatch and otherwise true exactly when
        every remote entry passes and the tag lists compare equal. */
    lemma VerdictWithoutExceptions(card: RemoteCard, decodeUri: string -> Completion<string>,
                                   arraysEqual: (seq<string>, seq<string>) -> bool)
      requires NoThrow(card.fields, decodeUri)
      ensures Verdict(card, decodeUri, arraysEqual) ==
              Normal(|card.fields| != |fields| || (AllPass(card.fields, decodeUri) && arraysEqual(card.tags, tags)))
    {
    }

    /** The outcome depends on the remote entries only through what each
        one's check yields. */
    lemma VerdictFromChecks(c1: RemoteCard, c2: RemoteCard, decodeUri: string -> Completion<string>,
                            arraysEqual: (seq<string>, seq<string>) -> bool)
      requires |c1.fields| == |c2.fields| && c1.tags == c2.tags
      requires forall k :: 0 <= k < |c1.fields| ==>
        FieldCheck(c1.fields[k], decodeUri) == FieldCheck(c2.fields[k], decodeUri)
      ensures Verdict(c1, decodeUri, arraysEqual) == Verdict(c2, decodeUri, arraysEqual)
    {
    }

    /** Reordering the remote entries, as a different `Object.entries`
        order would, leaves the outcome unchanged as long as no Source
        comparison throws. */
    lemma VerdictIgnoresFieldOrder(c1: RemoteCard, c2: RemoteCard, decodeUri: string -> Completion<string>,
                                   arraysEqual: (seq<string>, seq<string>) -> bool)
      requires multiset(c1.fields) == multiset(c2.fields) && c1.tags == c2.tags
      requires NoThrow(c1.fields, decodeUri)
      ensures NoThrow(c2.fields, decodeUri)
      ensures Verdict(c1, decodeUri, arraysEqual) == Verdict(c2, decodeUri, arraysEqual)
    {
      assert |c1.fields| == |multiset(c1.fields)| == |multiset(c2.fields)| == |c2.fields|;
      forall k | 0 <= k < |c2.fields| ensures FieldCheck(c2.fields[k], decodeUri) != Throw {
        assert c2.fields[k] in multiset(c1.fields);
        var i :| 0 <= i < |c1.fields| && c1.fields[i] == c2.fields[k];
      }
      if AllPass(c1.fields, decodeUri) {
        forall k | 0 <= k < |c2.fields| ensures FieldCheck(c2.fields[k], decodeUri) == Normal(true) {
          assert c2.fields[k] in multiset(c1.fields);
          var i :| 0 <= i < |c1.fields| && c1.fields[i] == c2.fields[k];
        }
      }
      if AllPass(c2.fields, decodeUri) {
        forall k | 0 <= k < |c1.fields| ensures FieldCheck(c1.fields[k], decodeUri) == Normal(true) {
          assert c1.fields[k] in multiset(c2.fields);
          var i :| 0 <= i < |c2.fields| && c2.fields[i] == c1.fields[k];
        }
      }
      VerdictWithoutExceptions(c1, decodeUri, arraysEqual);
      VerdictWithoutExceptions(c2, decodeUri, arraysEqual);
    }

    /** Some entry fails its check, so the loop stops at a first one. */
    lemma {:induction false} FirstStopExists(entries: seq<RemoteEntry>, decodeUri: string -> Completion<string>)
      requires !AllPass(entries, decodeUri)
      ensures exists k :: 0 <= k < |entries| && StopsAt(entries, k, decodeUri)
    {
      var k :| 0 <= k < |entries| && FieldCheck(entries[k], decodeUri) != Normal(true);
      var i := 0;
      while FieldCheck(entries[i], decodeUri) == Normal(true)
        invariant 0 <= i <= k
        invariant forall j :: 0 <= j < i ==> FieldCheck(entries[j], decodeUri) == Normal(true)
        decreases k - i
      {
        i := i + 1;
      }
      assert StopsAt(entries, i, decodeUri);
    }

    /** Whether `match` reports true, exceptions or not: exactly when the
        arities differ, or every entry passes and the tags compare equal. */
    lemma VerdictTrueExactly(card: RemoteCard, decodeUri: string -> Completion<string>,
                             arraysEqual: (seq<string>, seq<string>) -> bool)
      ensures (Verdict(card, decodeUri, arraysEqual) == Normal(true)) ==
              (|card.fields| != |fields| || (AllPass(card.fields, decodeUri) && arraysEqual(card.tags, tags)))
    {
      if |card.fields| == |fields| && !AllPass(card.fields, decodeUri) {
        FirstStopExists(card.fields, decodeUri);
        var k :| 0 <= k < |card.fields| && StopsAt(card.fields, k, decodeUri);
        VerdictAtStop(card, k, decodeUri, arraysEqual);
      }
    }

    /** Whether `match` reports true never depends on the order of the
        remote entries, even when a Source comparison throws. */
    lemma VerdictTrueIgnoresFieldOrder(c1: RemoteCard, c2: RemoteCard, decodeUri: string -> Completion<string>,
                                       arraysEqual: (seq<string>, seq<string>) -> bool)
      requires multiset(c1.fields) == multiset(c2.fields) && c1.tags == c2.tags
      ensures (Verdict(c1, decodeUri, arraysEqual) == Normal(true)) ==
              (Verdict(c2, decodeUri, arraysEqual) == Normal(true))
    {
      assert |c1.fields| == |multiset(c1.fields)| == |multiset(c2.fields)| == |c2.fields|;
      if AllPass(c1.fields, decodeUri) {
        forall k | 0 <= k < |c2.fields| ensures FieldCheck(c2.fields[k], decodeUri) == Normal(true) {
          assert c2.fields[k] in multiset(c1.fields);
          var i :| 0 <= i < |c1.fields| && c1.fields[i] == c2.fields[k];
        }
      }
      if AllPass(c2.fields, decodeUri) {
        forall k | 0 <= k < |c1.fields| ensures FieldCheck(c1.fields[k], decodeUri) == Normal(true) {
          assert c1.fields[k] in multiset(c2.fields);
          var i :| 0 <= i < |c2.fields| && c2.fields[i] == c1.fields[k];
        }
      }
      VerdictTrueExactly(c1, decodeUri, arraysEqual);
      VerdictTrueExactly(c2, decodeUri, arraysEqual);
    }

    /** A remote card copied field by field from this one matches it, as
        long as the tag comparison accepts the tags and the local Source
        extracts without an exception. */
    lemma CopyMatches(card: RemoteCard, decodeUri: string -> Completion<string>,
                      arraysEqual: (seq<string>, seq<string>) -> bool)
      requires |card.fields| == |fields|
      requires forall k :: 0 <= k < |card.fields| ==>
        card.fields[k].name in fields && card.fields[k].value == fields[card.fields[k].name]
      requires SourceField in fields ==> ExtractFilenameFromSource(fields[SourceField], decodeUri).Normal?
      ensures Verdict(card, decodeUri, arraysEqual) == Normal(arraysEqual(card.tags, tags))
    {
      VerdictWithoutExceptions(card, decodeUri, arraysEqual);
    }

    /** A card need not match its own copy: a local Source `file=%`, whose
        capture `%` the decoder rejects, makes `match` throw. */
    lemma CopyCanThrow(card: RemoteCard, decodeUri: string -> Completion<string>,
                       arraysEqual: (seq<string>, seq<string>) -> bool)
      requires fields == map[SourceField := "file=%"]
      requires card.fields == [RemoteEntry(SourceField, "file=%")]
      requires decodeUri("%") == Throw
      ensures Verdict(card, decodeUri, arraysEqual) == Throw
    {
      var s := "file=%";
      assert LeftmostUrl(s, 0, 6);
      assert s[5..6] == "%";
      assert NoWiki(s);
      assert |fields| == 1;
      assert StopsAt(card.fields, 0, decodeUri);
      VerdictAtStop(card, 0, decodeUri, arraysEqual);
    }

    /** A Source comparison that does not take place never blocks a match:
        when the local Source is absent or empty, or the remote Source value
        is empty, `match` is true on an arity mismatch and otherwise true
        exactly when every other remote field equals the local one and the
        tag lists compare equal. */
    lemma SourceWithEmptySideIgnored(card: RemoteCard, decodeUri: string -> Completion<string>,
                                     arraysEqual: (seq<string>, seq<string>) -> bool)
      requires forall k :: 0 <= k < |card.fields| && card.fields[k].name == SourceField ==>
        card.fields[k].value == "" || LocalValue(SourceField) == None || LocalValue(SourceField) == Some("")
      ensures Verdict(card, decodeUri, arraysEqual) ==
              Normal(|card.fields| != |fields| ||
                     ((forall k :: 0 <= k < |card.fields| && card.fields[k].name != SourceField ==>
                         LocalValue(card.fields[k].name) == Some(card.fields[k].value)) &&
                      arraysEqual(card.tags, tags)))
    {
    }

    /** When both Source strings are nonempty, every other remote field
        passes and neither extraction throws, `match` is false exactly when
        the extracted filenames differ (and otherwise the tag comparison). */
    lemma SourceFilenameDecides(card: RemoteCard, k: int, decodeUri: string -> Completion<string>,
                                arraysEqual: (seq<string>, seq<string>) -> bool)
      requires |card.fields| == |fields|
      requires 0 <= k < |card.fields| && card.fields[k].name == SourceField && card.fields[k].value != ""
      requires SourceField in fields && fields[SourceField] != ""
      requires forall i :: 0 <= i < |card.fields| && i != k ==> FieldCheck(card.fields[i], decodeUri) == Normal(true)
      requires ExtractFilenameFromSource(card.fields[k].value, decodeUri).Normal?
      requires ExtractFilenameFromSource(fields[SourceField], decodeUri).Normal?
      ensures Verdict(card, decodeUri, arraysEqual) ==
              Normal(ExtractFilenameFromSource(card.fields[k].value, decodeUri) ==
                     ExtractFilenameFromSource(fields[SourceField], decodeUri) &&
                     arraysEqual(card.tags, tags))
    {
    }

    /** Replacing the remote Source value by another nonempty one with the
        same extracted filename never changes the outcome, even though the
        raw strings differ. */
    lemma SourceComparedByFilename(card: RemoteCard, k: int, other: string,
                                   decodeUri: string -> Completion<string>,
                                   arraysEqual: (seq<string>, seq<string>) -> bool)
      requires 0 <= k < |card.fields| && card.fields[k].name == SourceField
      requires card.fields[k].value != "" && other != ""
      requires ExtractFilenameFromSource(card.fields[k].value, decodeUri) == ExtractFilenameFromSource(other, decodeUri)
      ensures Verdict(card, decodeUri, arraysEqual) ==
              Verdict(card.(fields := card.fields[k := RemoteEntry(SourceField, other)]), decodeUri, arraysEqual)
    {
      var card' := card.(fields := card.fields[k := RemoteEntry(SourceField, other)]);
      assert FieldCheck(card.fields[k], decodeUri) == FieldCheck(card'.fields[k], decodeUri);
      VerdictFromChecks(card, card', decodeUri, arraysEqual);
    }

    /** A changed block id in a wiki-link Source forces `match` to report a
        difference: the wiki capture keeps the `#^` suffix. */
    lemma WikiBlockIdChangeMismatches(name: string, localId: string, remoteId: string,
                                      decodeUri: string -> Completion<string>)
      requires forall c :: c in name ==> c != ']'
      requires forall c :: c in localId ==> c != ']'
      requires forall c :: c in remoteId ==> c != ']'
      requires localId != remoteId
      requires LocalValue(SourceField) == Some("[[" + name + "#^" + localId + "]]")
      ensures FieldCheck(RemoteEntry(SourceField, "[[" + name + "#^" + remoteId + "]]"), decodeUri) == Normal(false)
    {
      WikiLinkKeepsBlockId(name, localId, decodeUri);
      WikiLinkKeepsBlockId(name, remoteId, decodeUri);
      assert (name + "#^" + localId)[|name| + 2..] == localId;
      assert (name + "#^" + remoteId)[|name| + 2..] == remoteId;
    }

    /** A changed fragment after a URL-form Source's `file=` value does not
        block a match, provided the file value decodes. */
    lemma UrlFragmentChangeIgnored(localPrefix: string, remotePrefix: string, file: string,
                                   localFragment: string, remoteFragment: string,
                                   decodeUri: string -> Completion<string>)
      requires forall c :: c in localPrefix ==> c != '['
      requires forall p :: !FileKeyAt(localPrefix, p)
      requires forall c :: c in remotePrefix ==> c != '['
      requires forall p :: !FileKeyAt(remotePrefix, p)
      requires |file| > 0 && forall c :: c in file ==> c != '#' && c != '&' && c != '['
      requires forall c :: c in localFragment ==> c != '['
      requires forall c :: c in remoteFragment ==> c != '['
      requires decodeUri(file).Normal?
      requires LocalValue(SourceField) == Some(localPrefix + "file=" + file + "#" + localFragment)
      ensures FieldCheck(RemoteEntry(SourceField, remotePrefix + "file=" + file + "#" + remoteFragment), decodeUri)
              == Normal(true)
    {
      UrlLinkDropsFragment(localPrefix, file, localFragment, decodeUri);
      UrlLinkDropsFragment(remotePrefix, file, remoteFragment, decodeUri);
    }
  }

  // ---------------------------------------------------------------------
  // What `extractFilenameFromSource` returns for the two link shapes
  // ---------------------------------------------------------------------

  /** A string that starts with a wiki link yields the link's whole inner
      text, whatever follows the link. */
  lemma WikiLinkCapture(body: string, tail: string, decodeUri: string -> Completion<string>)
    requires |body| > 0 && forall c :: c in body ==> c != ']'
    ensures ExtractFilenameFromSource("[[" + body + "]]" + tail, decodeUri) == Normal(body)
  {
    var s := "[[" + body + "]]" + tail;
    var j := |body| + 2;
    forall k | 2 <= k < j ensures s[k] != ']' {
      assert s[k] == body[k - 2] && body[k - 2] in body;
    }
    assert WikiMatch(s, 0, j);
    assert LeftmostWiki(s, 0, j);
    assert s[2..j] == body;
  }

  /** The wiki capture keeps a `#^` block id: `[[name#^id]]` yields
      `name#^id`, not `name`. */
  lemma WikiLinkKeepsBlockId(name: string, blockId: string, decodeUri: string -> Completion<string>)
    requires forall c :: c in name ==> c != ']'
    requires forall c :: c in blockId ==> c != ']'
    ensures ExtractFilenameFromSource("[[" + name + "#^" + blockId + "]]", decodeUri) == Normal(name + "#^" + blockId)
  {
    var body := name + "#^" + blockId;
    assert "[[" + name + "#^" + blockId + "]]" == "[[" + body + "]]" + "";
    WikiLinkCapture(body, "", decodeUri);
  }

  /** A URL-form Source without wiki links yields the decoded `file=` value
      and drops the `#` fragment after it. */
  lemma UrlLinkDropsFragment(prefix: string, file: string, fragment: string, decodeUri: string -> Completion<string>)
    requires forall c :: c in prefix ==> c != '['
    requires forall p :: !FileKeyAt(prefix, p)
    requires |file| > 0 && forall c :: c in file ==> c != '#' && c != '&' && c != '['
    requires forall c :: c in fragment ==> c != '['
    ensures ExtractFilenameFromSource(prefix + "file=" + file + "#" + fragment, decodeUri) == decodeUri(file)
  {
    var s := prefix + "file=" + file + "#" + fragment;
    var i := |prefix|;
    var j := i + 5 + |file|;
    forall k | 0 <= k < |s| ensures s[k] != '[' {
      if k < i { assert s[k] == prefix[k] && prefix[k] in prefix; }
      else if k < i + 5 { }
      else if k < j { assert s[k] == file[k - i - 5] && file[k - i - 5] in file; }
      else if k > j { assert s[k] == fragment[k - j - 1] && fragment[k - j - 1] in fragment; }
    }
    assert NoWiki(s);
    forall k | i + 5 <= k < j ensures s[k] != '#' && s[k] != '&' {
      assert s[k] == file[k - i - 5] && file[k - i - 5] in file;
    }
    assert UrlMatch(s, i, j);
    // `file=` does not overlap a shifted copy of itself, so no match can
    // start inside the prefix and run into the literal after it.
    forall p, q | 0 <= p < i ensures !UrlMatch(s, p, q) {
      if p + 5 <= i {
        assert s[p..p + 5] == prefix[p..p + 5];
        assert !FileKeyAt(prefix, p);
      } else {
        assert s[i] == 'f';
      }
    }
    assert LeftmostUrl(s, i, j);
    assert s[i + 5..j] == file;
  }
}
