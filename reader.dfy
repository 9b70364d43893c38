/** The reader: its one configuration check, `text_to_instance` assembling one instance from
    the grammar engine's output, and the loading loop of `_read`. */
module Reader {
  import opened Wrappers
  import opened Errors
  import opened Text
  import opened Spans
  import opened Actions

  /** The constructor options the core depends on. */
  datatype Settings = Settings(usePrelinkedEntities: bool, keepIfUnparsable: bool, loadingLimit: int)

  /** The constructor's defaults. */
  const DEFAULT_SETTINGS := Settings(usePrelinkedEntities := true, keepIfUnparsable := false, loadingLimit := -1)

  /** The constructor's check: without entity pre-linking it raises ConfigurationError. */
  function Configure(settings: Settings): (r: Result<Settings, ReaderError>)
    ensures r.Success? <==> settings.usePrelinkedEntities
    ensures r.Success? ==> r.value == settings
    ensures r.Failure? ==> r.error == ConfigurationError
  {
    if !settings.usePrelinkedEntities then Failure(ConfigurationError) else Success(settings)
  }

  /** What the grammar engine's `get_action_sequence_and_all_actions` returns: the gold rule
      sequence (None when the SQL cannot be derived) and every rule legal for the example. */
  datatype Derivation = Derivation(actionSequence: Option<seq<string>>, allActions: seq<string>)

  /** The four fields of an instance: tokens, inclusive spans, the action catalog, and the
      gold sequence as catalog positions. */
  datatype Instance = Instance(tokens: seq<string>, spans: set<Span>, validActions: seq<ProductionRule>, actionSequence: seq<int>)

  /** What `text_to_instance` produces: Success(Some(instance)), Success(None) when the
      example is dropped, or the exception it raises. `tokens` is the tokenizer's output. */
  function InstanceOf(settings: Settings, tokens: seq<string>, spans: Option<seq<Span>>,
                      derivation: Derivation, isGlobalRule: string -> bool): Result<Option<Instance>, ReaderError>
  {
    var spanSet := SpansOrUnits(spans, |tokens|);
    if derivation.actionSequence.None? && !settings.keepIfUnparsable then
      Success(None)
    else
      var actionSequence := derivation.actionSequence.GetOr([]);
      var validActions :- Catalog(derivation.allActions, isGlobalRule);
      var indices :- GoldIndices(ActionMap(Rules(validActions)), actionSequence);
      Success(Some(Instance(tokens, spanSet, validActions, indices)))
  }

  /** `text_to_instance` as written: the spans are fixed first, so a missing span list raises
      TypeError before anything else happens. */
  function InstanceOfAsWritten(settings: Settings, tokens: seq<string>, spans: Option<seq<Span>>,
                               derivation: Derivation, isGlobalRule: string -> bool): (r: Result<Option<Instance>, ReaderError>)
    ensures spans.Some? ==> r == InstanceOf(settings, tokens, spans, derivation, isGlobalRule)
  {
    var _ :- FixSpansCoverageAsWritten(spans, |tokens|);
    InstanceOf(settings, tokens, spans, derivation, isGlobalRule)
  }

  /** Called without spans, as `read_json_dict` calls it, the method as written never yields
      an instance: even an example it would keep or drop fails. */
  lemma MissingSpansAlwaysFail(settings: Settings, tokens: seq<string>, derivation: Derivation, isGlobalRule: string -> bool)
    ensures InstanceOfAsWritten(settings, tokens, None, derivation, isGlobalRule) == Failure(NotIterable)
  {
  }

  /** The body of `text_to_instance`: fix the spans, apply the unparsable policy, build the
      catalog, the action map and the index list. */
  method TextToInstance(settings: Settings, tokens: seq<string>, spans: Option<seq<Span>>,
                        derivation: Derivation, isGlobalRule: string -> bool)
    returns (r: Result<Option<Instance>, ReaderError>)
    ensures r == InstanceOf(settings, tokens, spans, derivation, isGlobalRule)
  {
    var spanSet := FixSpansCoverage(spans.GetOr([]), |tokens|);
    var actionSequence: seq<string>;
    match derivation.actionSequence {
      case None =>
        if settings.keepIfUnparsable {
          actionSequence := [];
        } else {
          return Success(None);
        }
      case Some(gold) =>
        actionSequence := gold;
    }
    var validActions := BuildValidActions(derivation.allActions, isGlobalRule);
    if validActions.Failure? {
      return Failure(validActions.error);
    }
    var actionMap := ActionMap(Rules(validActions.value));
    var indexFields := IndexActionSequence(actionMap, actionSequence);
    if indexFields.Failure? {
      return Failure(indexFields.error);
    }
    return Success(Some(Instance(tokens, spanSet, validActions.value, indexFields.value)));
  }

  /** With `keep_if_unparsable` off, an underivable example is dropped (None, not an
      exception), whatever its catalog holds. */
  lemma DropUnparsable(settings: Settings, tokens: seq<string>, spans: Option<seq<Span>>,
                       allActions: seq<string>, isGlobalRule: string -> bool)
    requires !settings.keepIfUnparsable
    ensures InstanceOf(settings, tokens, spans, Derivation(None, allActions), isGlobalRule) == Success(None)
  {
  }

  /** The defaults pass the constructor's check, drop underivable examples and load without
      a limit. */
  lemma DefaultsAccepted(tokens: seq<string>, spans: Option<seq<Span>>, allActions: seq<string>,
                         isGlobalRule: string -> bool)
    ensures Configure(DEFAULT_SETTINGS) == Success(DEFAULT_SETTINGS)
    ensures InstanceOf(DEFAULT_SETTINGS, tokens, spans, Derivation(None, allActions), isGlobalRule) == Success(None)
    ensures DEFAULT_SETTINGS.loadingLimit < 0
  {
    DropUnparsable(DEFAULT_SETTINGS, tokens, spans, allActions, isGlobalRule);
  }

  /** An empty gold sequence, or an underivable example kept by `keep_if_unparsable`, gives an
      instance whose index list is the single sentinel -1, beside the full catalog. */
  lemma EmptyGoldSentinel(settings: Settings, tokens: seq<string>, spans: Option<seq<Span>>,
                          derivation: Derivation, isGlobalRule: string -> bool)
    requires derivation.actionSequence == Some([]) || (derivation.actionSequence.None? && settings.keepIfUnparsable)
    requires forall k :: 0 <= k < |derivation.allActions| ==> SingleArrow(derivation.allActions[k])
    ensures var r := InstanceOf(settings, tokens, spans, derivation, isGlobalRule);
      && r.Success? && r.value.Some?
      && r.value.value.actionSequence == [-1]
      && Rules(r.value.value.validActions) == derivation.allActions
      && r.value.value.spans == SpansOrUnits(spans, |tokens|)
      && r.value.value.tokens == tokens
  {
    CatalogSpec(derivation.allActions, isGlobalRule);
  }

  /** A gold sequence drawn from a well-formed catalog gives an instance whose index list has
      one position per gold rule, each pointing at that very rule in the catalog. */
  lemma InstanceRoundTrip(settings: Settings, tokens: seq<string>, spans: Option<seq<Span>>,
                          gold: seq<string>, allActions: seq<string>, isGlobalRule: string -> bool)
    requires gold != []
    requires forall k :: 0 <= k < |allActions| ==> SingleArrow(allActions[k])
    requires forall k :: 0 <= k < |gold| ==> gold[k] in allActions
    ensures var r := InstanceOf(settings, tokens, spans, Derivation(Some(gold), allActions), isGlobalRule);
      && r.Success? && r.value.Some?
      && var inst := r.value.value;
      && |inst.actionSequence| == |gold|
      && Rules(inst.validActions) == allActions
      && (forall k :: 0 <= k < |gold| ==> 0 <= inst.actionSequence[k] < |inst.validActions|)
      && Decode(Rules(inst.validActions), inst.actionSequence) == gold
  {
    var derivation := Derivation(Some(gold), allActions);
    CatalogSpec(allActions, isGlobalRule);
    var validActions := Catalog(allActions, isGlobalRule).value;
    assert Rules(validActions) == allActions;
    IndexRoundTrip(allActions, gold);
    var indices := GoldIndices(ActionMap(allActions), gold).value;
    assert InstanceOf(settings, tokens, spans, derivation, isGlobalRule)
        == Success(Some(Instance(tokens, SpansOrUnits(spans, |tokens|), validActions, indices)));
  }

  /** A rule without exactly one arrow makes every example that reaches the catalog fail with
      the ValueError of the first such rule. */
  lemma BadRuleFails(settings: Settings, tokens: seq<string>, spans: Option<seq<Span>>,
                     derivation: Derivation, isGlobalRule: string -> bool, k: int)
    requires derivation.actionSequence.Some? || settings.keepIfUnparsable
    requires FirstUnpackFailure(derivation.allActions, k)
    ensures InstanceOf(settings, tokens, spans, derivation, isGlobalRule) == Failure(UnpackError(derivation.allActions[k]))
  {
    CatalogFailure(derivation.allActions, isGlobalRule, k);
  }

  /** A gold rule missing from a well-formed catalog raises the KeyError of the first missing
      gold rule. */
  lemma MissingGoldFails(settings: Settings, tokens: seq<string>, spans: Option<seq<Span>>,
                         gold: seq<string>, allActions: seq<string>, isGlobalRule: string -> bool, k: nat)
    requires forall j :: 0 <= j < |allActions| ==> SingleArrow(allActions[j])
    requires k < |gold| && gold[k] !in allActions
    ensures var r := InstanceOf(settings, tokens, spans, Derivation(Some(gold), allActions), isGlobalRule);
      && r.Failure?
      && exists i :: && 0 <= i <= k && gold[i] !in allActions && (forall j :: 0 <= j < i ==> gold[j] in allActions)
                     && r.error == KeyError(gold[i])
  {
    CatalogSpec(allActions, isGlobalRule);
    MissingGoldRule(allActions, gold, k);
  }

  // ---------------------------------------------------------------------------------------
  // `_read`: which files are read, and how many instances are loaded from them.

  /** `os.path.basename(path)`: the text after the last "/", that is, the final component. */
  function Basename(path: string): (name: string)
    ensures !Contains(name, "/")
    ensures |name| <= |path| && path[|path| - |name|..] == name
    ensures |name| == |path| || path[|path| - |name| - 1] == '/'
  {
    var parts := Split(path, "/");
    SplitLast(path, "/");
    var name := parts[|parts| - 1];
    assert |name| < |path| ==> path[|path| - |name| - 1..|path| - |name|] == "/";
    name
  }

  /** A path survives the cross-validation filter: its base name does not contain the text
      of the split to exclude. */
  predicate Kept(path: string, excluded: string) {
    !Contains(Basename(path), excluded)
  }

  /** The files `_read` visits: those whose base name does not contain the text of the
      cross-validation split to exclude, in glob order. */
  function SelectFiles(paths: seq<string>, excluded: string): (selected: seq<string>)
    ensures forall p :: p in selected <==> p in paths && Kept(p, excluded)
    ensures |selected| <= |paths|
    decreases |paths|
  {
    if paths == [] then
      []
    else
      (if Kept(paths[0], excluded) then [paths[0]] else []) + SelectFiles(paths[1..], excluded)
  }

  /** Selection distributes over concatenation: the kept paths stay in glob order, and
      each occurrence of a path is kept or dropped on its own. */
  lemma {:induction false} SelectFilesAppend(a: seq<string>, b: seq<string>, excluded: string)
    ensures SelectFiles(a + b, excluded) == SelectFiles(a, excluded) + SelectFiles(b, excluded)
    decreases |a|
  {
    if a == [] {
      assert a + b == b;
    } else {
      var head := if Kept(a[0], excluded) then [a[0]] else [];
      assert (a + b)[0] == a[0];
      assert (a + b)[1..] == a[1..] + b;
      SelectFilesAppend(a[1..], b, excluded);
      assert head + (SelectFiles(a[1..], excluded) + SelectFiles(b, excluded))
          == (head + SelectFiles(a[1..], excluded)) + SelectFiles(b, excluded);
    }
  }

  /** A single path is kept exactly when its base name lacks the excluded text. */
  lemma SelectFilesSingle(path: string, excluded: string)
    ensures SelectFiles([path], excluded) == if Kept(path, excluded) then [path] else []
  {
    assert [path][1..] == [];
  }

  /** A file's records, each paired with the value `total_cnt` holds while it is processed:
      its position within that file. The cache file `instance-<n>.pt` is named by this
      position alone, inside one cache directory derived from the `file_path` argument, so
      record `n` of every globbed file shares one cache file name. */
  function Tag(records: seq<Option<Instance>>): seq<(Option<Instance>, nat)> {
    seq(|records|, j requires 0 <= j < |records| => (records[j], j))
  }

  /** The tagged records of all files, file after file. */
  function Stream(files: seq<seq<Option<Instance>>>): seq<(Option<Instance>, nat)>
    decreases |files|
  {
    if files == [] then [] else Stream(files[..|files| - 1]) + Tag(files[|files| - 1])
  }

  /** The instances among tagged records, in order; None results are skipped. */
  function Present(records: seq<(Option<Instance>, nat)>): seq<(Instance, nat)>
    decreases |records|
  {
    if records == [] then
      []
    else
      var n := |records| - 1;
      Present(records[..n]) + (if records[n].0.Some? then [(records[n].0.value, records[n].1)] else [])
  }

  /** The first `limit` items, or all of them when the limit is negative or not reached. */
  function Limit<T>(items: seq<T>, limit: int): seq<T> {
    if 0 <= limit < |items| then items[..limit] else items
  }

  /** The instances `_read` yields, each with its cache index: the first `loadingLimit`
      non-None results over all files, or all of them when the limit is negative. */
  function Loaded(files: seq<seq<Option<Instance>>>, loadingLimit: int): (r: seq<(Instance, nat)>)
    ensures r <= Present(Stream(files))
    ensures 0 <= loadingLimit ==> |r| == if loadingLimit < |Present(Stream(files))| then loadingLimit else |Present(Stream(files))|
    ensures loadingLimit < 0 ==> r == Present(Stream(files))
  {
    Limit(Present(Stream(files)), loadingLimit)
  }

  lemma {:induction false} PresentAppend(a: seq<(Option<Instance>, nat)>, b: seq<(Option<Instance>, nat)>)
    ensures Present(a + b) == Present(a) + Present(b)
    decreases |b|
  {
    if b == [] {
      assert a + b == a;
    } else {
      var n := |b| - 1;
      PresentAppend(a, b[..n]);
      var ab := a + b;
      assert |ab| - 1 == |a| + n;
      assert ab[..|a| + n] == a + b[..n];
      assert ab[|a| + n] == b[n];
    }
  }

  /** Every tagged instance of the stream is the record at that position of some file. */
  lemma {:induction false} PresentFromRecords(files: seq<seq<Option<Instance>>>, k: nat)
    requires k < |Present(Stream(files))|
    ensures var item := Present(Stream(files))[k];
      exists f :: 0 <= f < |files| && item.1 < |files[f]| && files[f][item.1] == Some(item.0)
    decreases |files|
  {
    var n := |files| - 1;
    var front := Stream(files[..n]);
    var back := Tag(files[n]);
    PresentAppend(front, back);
    assert forall f :: 0 <= f < n ==> files[..n][f] == files[f];
    if k < |Present(front)| {
      PresentFromRecords(files[..n], k);
    } else {
      TaggedPresent(files[n], k - |Present(front)|);
    }
  }

  lemma {:induction false} TaggedPresent(records: seq<Option<Instance>>, k: nat)
    requires k < |Present(Tag(records))|
    ensures var item := Present(Tag(records))[k];
      item.1 < |records| && records[item.1] == Some(item.0)
    decreases |records|
  {
    var n := |records| - 1;
    assert Tag(records)[..n] == Tag(records[..n]);
    assert Tag(records)[n] == (records[n], n);
    var front := Present(Tag(records[..n]));
    if k < |front| {
      TaggedPresent(records[..n], k);
      assert Present(Tag(records))[k] == front[k];
      assert records[..n][front[k].1] == records[front[k].1];
    }
  }

  /** Every loaded instance comes from the file record its cache index names. */
  lemma LoadedFromRecords(files: seq<seq<Option<Instance>>>, loadingLimit: int, k: nat)
    requires k < |Loaded(files, loadingLimit)|
    ensures var item := Loaded(files, loadingLimit)[k];
      exists f :: 0 <= f < |files| && item.1 < |files[f]| && files[f][item.1] == Some(item.0)
  {
    PresentFromRecords(files, k);
  }

  /** Without a limit, every non-None record is loaded, tagged with its position. */
  lemma {:induction false} LoadedComplete(files: seq<seq<Option<Instance>>>, loadingLimit: int, f: nat, j: nat)
    requires loadingLimit < 0
    requires f < |files| && j < |files[f]| && files[f][j].Some?
    ensures (files[f][j].value, j) in Loaded(files, loadingLimit)
    decreases |files|
  {
    var n := |files| - 1;
    PresentAppend(Stream(files[..n]), Tag(files[n]));
    if f < n {
      assert files[..n][f] == files[f];
      LoadedComplete(files[..n], loadingLimit, f, j);
    } else {
      TagComplete(files[n], j);
    }
  }

  lemma {:induction false} TagComplete(records: seq<Option<Instance>>, j: nat)
    requires j < |records| && records[j].Some?
    ensures (records[j].value, j) in Present(Tag(records))
    decreases |records|
  {
    var n := |records| - 1;
    assert Tag(records)[..n] == Tag(records[..n]);
    if j < n {
      assert records[..n][j] == records[j];
      TagComplete(records[..n], j);
    }
  }

  /** Files whose every record is None yield nothing. */
  lemma {:induction false} NoneNeverLoaded(files: seq<seq<Option<Instance>>>, loadingLimit: int)
    requires forall f, j :: 0 <= f < |files| && 0 <= j < |files[f]| ==> files[f][j].None?
    ensures Loaded(files, loadingLimit) == []
  {
    if Loaded(files, loadingLimit) != [] {
      LoadedFromRecords(files, loadingLimit, 0);
    }
  }

  lemma LimitSaturated<T>(xs: seq<T>, ys: seq<T>, limit: int)
    requires 0 <= limit && |Limit(xs, limit)| == limit
    ensures Limit(xs + ys, limit) == Limit(xs, limit)
  {
    assert (xs + ys)[..limit] == xs[..limit];
  }

  lemma StreamSnoc(files: seq<seq<Option<Instance>>>, f: nat)
    requires f < |files|
    ensures Stream(files[..f + 1]) == Stream(files[..f]) + Tag(files[f])
  {
    assert files[..f + 1][..f] == files[..f];
  }

  /** One record processed while the count is below the limit. */
  lemma RecordStep(front: seq<(Option<Instance>, nat)>, records: seq<Option<Instance>>, j: nat, limit: int)
    requires j < |records|
    requires |Limit(Present(front + Tag(records[..j])), limit)| != limit
    ensures Limit(Present(front + Tag(records[..j])), limit) == Present(front + Tag(records[..j]))
    ensures Limit(Present(front + Tag(records[..j + 1])), limit)
         == Present(front + Tag(records[..j])) + (if records[j].Some? then [(records[j].value, j)] else [])
  {
    var prefix := front + Tag(records[..j]);
    assert Tag(records[..j + 1]) == Tag(records[..j]) + [(records[j], j)];
    assert front + Tag(records[..j + 1]) == prefix + [(records[j], j)];
    assert (prefix + [(records[j], j)])[..|prefix|] == prefix;
  }

  /** The rest of a file adds nothing once the loop has left it: at its end, or at the break
      taken when the count reached the limit. */
  lemma FileDone(front: seq<(Option<Instance>, nat)>, records: seq<Option<Instance>>, j: nat, limit: int)
    requires j <= |records|
    requires j == |records| || (0 <= limit && |Limit(Present(front + Tag(records[..j])), limit)| == limit)
    ensures Limit(Present(front + Tag(records)), limit) == Limit(Present(front + Tag(records[..j])), limit)
  {
    if j < |records| {
      assert Tag(records) == Tag(records[..j]) + Tag(records)[j..];
      assert front + Tag(records) == (front + Tag(records[..j])) + Tag(records)[j..];
      PresentAppend(front + Tag(records[..j]), Tag(records)[j..]);
      LimitSaturated(Present(front + Tag(records[..j])), Present(Tag(records)[j..]), limit);
    } else {
      assert records[..j] == records;
    }
  }

  /** The counting loop of `_read`. `files` holds, per selected file, the outcome of each
      record: the instance loaded from its cache file or built by `text_to_instance`, or None
      when that gives nothing. `cnt` counts the instances yielded; `total_cnt` restarts at -1
      in each file and counts its records. */
  method ReadInstances(files: seq<seq<Option<Instance>>>, loadingLimit: int) returns (loaded: seq<(Instance, nat)>)
    ensures loaded == Loaded(files, loadingLimit)
  {
    loaded := [];
    var cnt := 0;
    for f := 0 to |files|
      invariant cnt == |loaded|
      invariant loaded == Limit(Present(Stream(files[..f])), loadingLimit)
    {
      ghost var front := Stream(files[..f]);
      var records := files[f];
      var totalCnt := -1;
      var j := 0;
      assert front + Tag(records[..0]) == front;
      while j < |records|
        invariant 0 <= j <= |records|
        invariant totalCnt == j - 1
        invariant cnt == |loaded|
        invariant loaded == Limit(Present(front + Tag(records[..j])), loadingLimit)
      {
        totalCnt := totalCnt + 1;
        if loadingLimit == cnt {
          break;
        }
        RecordStep(front, records, j, loadingLimit);
        if records[j].Some? {
          cnt := cnt + 1;
          loaded := loaded + [(records[j].value, totalCnt)];
        }
        j := j + 1;
      }
      FileDone(front, records, j, loadingLimit);
      StreamSnoc(files, f);
    }
    assert files[..|files|] == files;
  }
}
