/**
 * The "selective" exposed filter handler (Selective.php): it offers as its
 * options the distinct values one display field takes in a narrowed copy of
 * the current view, and keeps that copy from deriving options again.
 *
 * Running the copy of the view is left to an abstract `Engine`: whether the
 * view can be instantiated, which field handlers its display has, and which
 * rows a run of the copy yields. The signature hash is the hashed tuple itself.
 */
module Selective {
  import opened OptionTree
  import opened OptionMap
  import opened Sorting

  datatype Option<T> = None | Some(value: T)

  // ---------------------------------------------------------------------------
  // Base-field compatibility and the display-field choices

  /** `needle` occurs in `haystack` at offset `i`. */
  predicate OccursAt(haystack: string, needle: string, i: nat)
  {
    i + |needle| <= |haystack| && haystack[i..i + |needle|] == needle
  }

  /** The search of PHP's strpos from offset `from`: the first offset at which `needle` occurs. */
  function StrposFrom(haystack: string, needle: string, from: nat): (r: Option<nat>)
    decreases |haystack| - from
    ensures r.Some? ==> from <= r.value && OccursAt(haystack, needle, r.value)
    ensures r.Some? ==> forall i :: from <= i < r.value ==> !OccursAt(haystack, needle, i)
    ensures r.None? ==> forall i :: from <= i ==> !OccursAt(haystack, needle, i)
  {
    if from + |needle| > |haystack| then None
    else if OccursAt(haystack, needle, from) then Some(from)
    else StrposFrom(haystack, needle, from + 1)
  }

  /**
   * PHP 7's strpos: FALSE (with a warning) for an empty needle, otherwise the
   * first offset at which `needle` occurs.
   */
  function Strpos(haystack: string, needle: string): (r: Option<nat>)
    ensures needle == [] ==> r.None?
    ensures needle != [] && r.Some? ==>
      OccursAt(haystack, needle, r.value) && forall i :: 0 <= i < r.value ==> !OccursAt(haystack, needle, i)
    ensures needle != [] && r.None? ==> forall i :: 0 <= i ==> !OccursAt(haystack, needle, i)
  {
    if needle == [] then None else StrposFrom(haystack, needle, 0)
  }

  /**
   * Selective::baseFieldCompatible: `strpos($base_field2, $base_field1) === 0`,
   * which holds exactly when the first name is a non-empty prefix of the second.
   */
  function BaseFieldCompatible(baseField1: string, baseField2: string): (r: bool)
    ensures r <==> baseField1 != [] && baseField1 <= baseField2
  {
    var pos := Strpos(baseField2, baseField1);
    assert baseField1 <= baseField2 ==> OccursAt(baseField2, baseField1, 0);
    pos == Some(0)
  }

  /** A field handler of the view's display, as far as the filter looks at it. */
  datatype FieldHandler = FieldHandler(
    id: string,                    // options['id']
    field: string,                 // the field name the handler displays
    relationship: Option<string>,  // options['relationship']
    adminLabel: string)

  /** The assignments `$options[$id] = $label` of the handler loop, in handler order. */
  function CompatiblePairs(handlers: seq<FieldHandler>, baseField: string): seq<Pair>
  {
    if handlers == [] then []
    else
      var h := handlers[|handlers| - 1];
      CompatiblePairs(handlers[..|handlers| - 1], baseField) +
      (if BaseFieldCompatible(baseField, h.field) then [(h.id, h.adminLabel)] else [])
  }

  /** The loop assigns exactly the pairs of the compatible handlers. */
  lemma {:induction false} CompatiblePairsMembers(handlers: seq<FieldHandler>, baseField: string)
    ensures forall p :: p in CompatiblePairs(handlers, baseField) <==>
      exists h :: h in handlers && BaseFieldCompatible(baseField, h.field) && p == (h.id, h.adminLabel)
  {
    if handlers != [] {
      var n := |handlers| - 1;
      CompatiblePairsMembers(handlers[..n], baseField);
      assert handlers == handlers[..n] + [handlers[n]];
    }
  }

  /** One more handler is one more `Put` when it is compatible, and nothing otherwise. */
  lemma CompatibleStep(handlers: seq<FieldHandler>, baseField: string, i: nat)
    requires i < |handlers|
    ensures var h := handlers[i];
      Fold(CompatiblePairs(handlers[..i + 1], baseField)) ==
        if BaseFieldCompatible(baseField, h.field)
        then Put(Fold(CompatiblePairs(handlers[..i], baseField)), h.id, h.adminLabel)
        else Fold(CompatiblePairs(handlers[..i], baseField))
  {
    var h := handlers[i];
    var prefix := CompatiblePairs(handlers[..i], baseField);
    assert handlers[..i + 1][..i] == handlers[..i];
    if BaseFieldCompatible(baseField, h.field) {
      var ps := prefix + [(h.id, h.adminLabel)];
      assert CompatiblePairs(handlers[..i + 1], baseField) == ps;
      assert ps[..|ps| - 1] == prefix;
    } else {
      assert CompatiblePairs(handlers[..i + 1], baseField) == prefix;
    }
  }

  /**
   * The folded choices: distinct ids, exactly the ids of the compatible
   * handlers, each with the label of a compatible handler of that id.
   */
  lemma CompatibleOptions(handlers: seq<FieldHandler>, baseField: string)
    ensures var options := Fold(CompatiblePairs(handlers, baseField));
      DistinctKeys(options) &&
      KeysOf(options) == (set h | h in handlers && baseField != [] && baseField <= h.field :: h.id) &&
      forall p :: p in options ==>
        exists h :: h in handlers && baseField != [] && baseField <= h.field && p == (h.id, h.adminLabel)
  {
    var ps := CompatiblePairs(handlers, baseField);
    FoldDistinct(ps);
    FoldKeys(ps);
    CompatiblePairsMembers(handlers, baseField);
    forall p | p in Fold(ps) ensures p in ps {
      FoldLastWins(ps, p);
      var k :| IsLastForKey(ps, k) && ps[k] == p;
    }
    forall k | k in KeysOf(ps)
      ensures k in set h | h in handlers && baseField != [] && baseField <= h.field :: h.id
    {
      var p :| p in ps && p.0 == k;
    }
    forall h | h in handlers && baseField != [] && baseField <= h.field ensures h.id in KeysOf(ps) {
      assert (h.id, h.adminLabel) in ps;
    }
  }

  /**
   * The display-field choices of Selective::buildOptionsForm: field id => admin
   * label of every field handler whose field name starts with the filter's
   * (non-empty) base field, keys in the order of the first handler with each id.
   */
  method DisplayFieldOptions(handlers: seq<FieldHandler>, baseField: string) returns (options: seq<Pair>)
    ensures options == Fold(CompatiblePairs(handlers, baseField))
    ensures DistinctKeys(options)
    ensures KeysOf(options) == set h | h in handlers && baseField != [] && baseField <= h.field :: h.id
    ensures forall p :: p in options ==>
      exists h :: h in handlers && baseField != [] && baseField <= h.field && p == (h.id, h.adminLabel)
    ensures InFirstAssignmentOrder(CompatiblePairs(handlers, baseField), options)
  {
    options := [];
    for i := 0 to |handlers|
      invariant options == Fold(CompatiblePairs(handlers[..i], baseField))
    {
      var field := handlers[i];
      CompatibleStep(handlers, baseField, i);
      if BaseFieldCompatible(baseField, field.field) {
        options := Put(options, field.id, field.adminLabel);
      }
    }
    assert handlers[..|handlers|] == handlers;
    CompatibleOptions(handlers, baseField);
    FoldOrder(CompatiblePairs(handlers, baseField));
  }

  // ---------------------------------------------------------------------------
  // Relationship coherence

  /** PHP's empty() on a string option: unset, '' and '0' are empty. */
  predicate PhpEmpty(v: Option<string>)
  {
    v.None? || v.value == "" || v.value == "0"
  }

  /** The option names no relationship: it is empty or 'none'. */
  predicate NoRelationship(v: Option<string>)
  {
    PhpEmpty(v) || v == Some("none")
  }

  /** The coherence test of Selective::getOids between field and filter relationship. */
  predicate RelationshipsCoherent(fieldRelationship: Option<string>, filterRelationship: Option<string>)
  {
    (NoRelationship(fieldRelationship) && NoRelationship(filterRelationship)) ||
    fieldRelationship == filterRelationship
  }

  /**
   * The test is symmetric, and the spellings of "no relationship" (unset, '',
   * '0', 'none') are interchangeable in it.
   */
  lemma RelationshipSpellings(a: Option<string>, b: Option<string>, x: Option<string>)
    requires NoRelationship(a) && NoRelationship(b)
    ensures RelationshipsCoherent(a, x) <==> RelationshipsCoherent(b, x)
    ensures RelationshipsCoherent(x, a) <==> RelationshipsCoherent(a, x)
  {
  }

  // ---------------------------------------------------------------------------
  // Views, signatures and the recursion guard

  /** The filter's settings and the parts of its definition the core reads. */
  datatype Config = Config(
    displayField: string,          // 'selective_display_field', also the real field
    displaySort: string,           // 'selective_display_sort'
    itemsLimit: int,               // (int) 'selective_items_limit'
    relationship: Option<string>,  // the filter's 'relationship' option
    baseField: string,             // definition 'field_base'
    field: string,
    table: string,
    adminLabel: string)

  /**
   * The signature of a filter in a view: the tuple Selective::getSignature
   * hashes. Hash collisions are not modelled, so equal signatures mean equal
   * tuples.
   */
  datatype Signature = Signature(
    viewId: string,
    args: seq<string>,
    input: seq<(string, string)>,
    baseField: string,
    realField: string,
    field: string,
    table: string,
    uiName: string)

  /** The view a filter handler belongs to, as far as the filter reads and writes it. */
  datatype ViewState = ViewState(
    id: string,
    args: seq<string>,
    input: seq<(string, string)>,            // the exposed input
    inited: bool,
    selectiveOids: bool,                     // the view is a derivation pass
    handlerSignature: Option<Signature>,     // 'selective_handler_signature'
    itemsPerPage: int,
    usingSelective: bool)

  function GetSignature(view: ViewState, cfg: Config): Signature
  {
    Signature(view.id, view.args, view.input, cfg.baseField, cfg.displayField,
              cfg.field, cfg.table, cfg.adminLabel)
  }

  /**
   * The copy of the view Selective::getOids runs: a new executable of the same
   * stored view, flagged as a derivation pass for signature `sig`, with the
   * original's arguments and exposed input and `maxItems` items per page.
   */
  function DerivedView(view: ViewState, sig: Signature, maxItems: int): ViewState
  {
    ViewState(view.id, view.args, view.input, true, true, Some(sig), maxItems, false)
  }

  /** Selective::query adds no condition: the view is the derivation pass for this very filter. */
  predicate QuerySkipped(view: ViewState, cfg: Config)
  {
    view.handlerSignature == Some(GetSignature(view, cfg))
  }

  /**
   * In the copy run for a filter, exactly the filters with that filter's
   * signature skip their condition; the filter itself is one of them, since
   * the copy keeps the view id, arguments and exposed input.
   */
  lemma DerivationSkipsOwnFilter(view: ViewState, cfg: Config, other: Config, maxItems: int)
    ensures QuerySkipped(DerivedView(view, GetSignature(view, cfg), maxItems), cfg)
    ensures QuerySkipped(DerivedView(view, GetSignature(view, cfg), maxItems), other) <==>
      GetSignature(view, other) == GetSignature(view, cfg)
    ensures DerivedView(view, GetSignature(view, cfg), maxItems).selectiveOids
  {
  }

  /** Two filters that differ only in their relationship share a signature. */
  lemma SignatureIgnoresRelationship(view: ViewState, cfg: Config, relationship: Option<string>)
    ensures GetSignature(view, cfg.(relationship := relationship)) == GetSignature(view, cfg)
  {
  }

  // ---------------------------------------------------------------------------
  // Deriving the options

  datatype Severity = Error | Warning

  /** An entry the filter puts on drupal_set_message's queue; `uiName` is the filter's admin label. */
  datatype Message =
    | MissingFieldError(uiName: string, baseField: string)
    | RelationshipError(uiName: string)
    | LimitWarning(uiName: string)

  function SeverityOf(m: Message): Severity
  {
    if m.LimitWarning? then Warning else Error
  }

  /**
   * What the filter needs from the views system and PHP: whether the stored
   * view can be instantiated, the field handlers of its display, the rows a
   * run of a copy yields when restricted to one field id, and the comparison
   * PHP's sort functions apply to keys and labels.
   */
  datatype Engine = Engine(
    instantiable: bool,
    fields: seq<FieldHandler>,
    run: (ViewState, string) -> seq<Row>,
    compare: Comparison)

  /** The field handler registered under `id`: `array_intersect_key` followed by `reset`. */
  function FindField(fields: seq<FieldHandler>, id: string): (r: Option<FieldHandler>)
    ensures r.Some? ==> r.value in fields && r.value.id == id
    ensures r.None? ==> forall f :: f in fields ==> f.id != id
  {
    if fields == [] then None
    else if fields[0].id == id then Some(fields[0])
    else FindField(fields[1..], id)
  }

  /** The limit warning's test: a non-zero limit met exactly. */
  predicate LimitReached(limit: int, count: int)
  {
    limit != 0 && count == limit
  }

  /** How a derivation ends once the cache has missed. */
  datatype Derivation =
    | Unavailable                  // the view could not be instantiated: getOids returns NULL
    | MissingField
    | RelationshipMismatch
    | Derived(options: seq<Entry>, limitReached: bool)

  /** The rows a run of the copy yields for the display field. */
  function DerivationRows(cfg: Config, view: ViewState, engine: Engine): seq<Row>
  {
    engine.run(DerivedView(view, GetSignature(view, cfg), cfg.itemsLimit), cfg.displayField)
  }

  /** The part of Selective::getOids after a cache miss, from cloning to sorting. */
  function Derive(cfg: Config, view: ViewState, engine: Engine, original: seq<Entry>): Derivation
  {
    if !engine.instantiable then Unavailable
    else
      match FindField(engine.fields, cfg.displayField)
      case None => MissingField
      case Some(field) =>
        if !RelationshipsCoherent(field.relationship, cfg.relationship) then RelationshipMismatch
        else
          var options := SortOptions(cfg.displaySort, engine.compare, Collected(DerivationRows(cfg, view, engine)), original);
          Derived(options, LimitReached(cfg.itemsLimit, |options|))
  }

  /**
   * A derivation runs the copy only when the view can be instantiated, the
   * display field is found and the relationships agree; it raises the limit
   * warning iff the limit is non-zero and met exactly.
   */
  lemma DeriveSucceeds(cfg: Config, view: ViewState, engine: Engine, original: seq<Entry>)
    ensures var field := FindField(engine.fields, cfg.displayField);
      Derive(cfg, view, engine, original).Derived? <==>
        engine.instantiable && field.Some? && RelationshipsCoherent(field.value.relationship, cfg.relationship)
    ensures var d := Derive(cfg, view, engine, original);
      d.Derived? ==> (d.limitReached <==> cfg.itemsLimit != 0 && |d.options| == cfg.itemsLimit)
  {
  }

  /** Which error a derivation that does not run the copy ends with. */
  lemma DeriveFailures(cfg: Config, view: ViewState, engine: Engine, original: seq<Entry>)
    ensures !engine.instantiable ==> Derive(cfg, view, engine, original) == Unavailable
    ensures engine.instantiable && FindField(engine.fields, cfg.displayField).None? ==>
      Derive(cfg, view, engine, original) == MissingField
    ensures var field := FindField(engine.fields, cfg.displayField);
      engine.instantiable && field.Some? && !RelationshipsCoherent(field.value.relationship, cfg.relationship) ==>
        Derive(cfg, view, engine, original) == RelationshipMismatch
  {
  }

  lemma DeriveUnfold(cfg: Config, view: ViewState, engine: Engine, original: seq<Entry>)
    requires Derive(cfg, view, engine, original).Derived?
    ensures Derive(cfg, view, engine, original).options ==
      SortOptions(cfg.displaySort, engine.compare, Fold(Assignments(DerivationRows(cfg, view, engine))), original)
  {
  }

  /**
   * Under every policy but ORIG the derived options are one per distinct row
   * key, each labelled by the last row with that key.
   */
  lemma DeriveOptions(cfg: Config, view: ViewState, engine: Engine, original: seq<Entry>)
    requires Derive(cfg, view, engine, original).Derived?
    ensures var d := Derive(cfg, view, engine, original);
      var ps := Assignments(DerivationRows(cfg, view, engine));
      cfg.displaySort != Orig ==>
        DistinctKeys(Leaves(d.options)) &&
        KeysOf(Leaves(d.options)) == KeysOf(ps) &&
        forall p :: p in Leaves(d.options) <==> LastAssigned(ps, p)
    ensures var d := Derive(cfg, view, engine, original);
      var ps := Assignments(DerivationRows(cfg, view, engine));
      cfg.displaySort == NoSort ==> InFirstAssignmentOrder(ps, Leaves(d.options))
    ensures var d := Derive(cfg, view, engine, original);
      var ps := Assignments(DerivationRows(cfg, view, engine));
      cfg.displaySort == Orig ==>
        NoEmptyGroups(d.options) && Leaves(d.options) == KeepKeys(Leaves(original), KeysOf(ps))
  {
    var d := Derive(cfg, view, engine, original);
    var ps := Assignments(DerivationRows(cfg, view, engine));
    DeriveUnfold(cfg, view, engine, original);
    if cfg.displaySort == Orig {
      SortOptionsOriginal(engine.compare, Fold(ps), original);
    } else {
      SortOptionsPermutes(cfg.displaySort, engine.compare, Fold(ps), original);
    }
    if cfg.displaySort != Orig {
      var oids := Fold(ps);
      FoldDistinct(ps);
      FoldKeys(ps);
      SortKeepsPairs(cfg.displaySort, engine.compare, oids, original);
      forall p ensures p in Leaves(d.options) <==> LastAssigned(ps, p) {
        FoldLastWins(ps, p);
      }
      assert KeysOf(Leaves(d.options)) == KeysOf(oids) by {
        assert forall p :: p in Leaves(d.options) <==> p in oids;
      }
      if cfg.displaySort == NoSort {
        FoldOrder(ps);
      }
    } else {
      FoldKeys(ps);
    }
  }

  // ---------------------------------------------------------------------------
  // The per-signature result cache

  /** The effect of one Selective::getOids call on the request's shared state. */
  datatype Outcome = Outcome(
    result: Option<seq<Entry>>,
    results: map<Signature, seq<Entry>>,
    messages: seq<Message>,
    executed: bool)

  /**
   * Selective::getOids against the cache `results`: a non-empty stored result
   * is returned as it is; otherwise the derivation `d` decides, and only a
   * derivation that ran the copy stores its options.
   */
  function OidsStep(results: map<Signature, seq<Entry>>, messages: seq<Message>,
                    sig: Signature, cfg: Config, d: Derivation): Outcome
  {
    if sig in results && results[sig] != [] then Outcome(Some(results[sig]), results, messages, false)
    else
      match d
      case Unavailable => Outcome(None, results, messages, false)
      case MissingField =>
        Outcome(Some([]), results, messages + [MissingFieldError(cfg.adminLabel, cfg.baseField)], false)
      case RelationshipMismatch =>
        Outcome(Some([]), results, messages + [RelationshipError(cfg.adminLabel)], false)
      case Derived(options, limitReached) =>
        Outcome(Some(options), results[sig := options],
                messages + (if limitReached then [LimitWarning(cfg.adminLabel)] else []), true)
  }

  /** A signature whose stored result is non-empty is answered from the cache. */
  lemma CacheHit(results: map<Signature, seq<Entry>>, messages: seq<Message>,
                 sig: Signature, cfg: Config, d: Derivation)
    requires sig in results && results[sig] != []
    ensures var s := OidsStep(results, messages, sig, cfg, d);
      s.result == Some(results[sig]) && !s.executed && s.results == results && s.messages == messages
  {
  }

  /**
   * A second call with the same signature after a call that returned
   * non-empty options returns the same options and runs nothing.
   */
  lemma RepeatedCallHits(results: map<Signature, seq<Entry>>, messages: seq<Message>,
                         sig: Signature, cfg: Config, d1: Derivation, d2: Derivation)
    requires var s1 := OidsStep(results, messages, sig, cfg, d1);
      s1.result.Some? && s1.result.value != []
    ensures var s1 := OidsStep(results, messages, sig, cfg, d1);
      var s2 := OidsStep(s1.results, s1.messages, sig, cfg, d2);
      s2.result == s1.result && !s2.executed && s2.results == s1.results && s2.messages == s1.messages
  {
  }

  /** An empty stored result fails the empty() test: the copy runs again. */
  lemma EmptyResultRecomputed(results: map<Signature, seq<Entry>>, messages: seq<Message>,
                              sig: Signature, cfg: Config, options: seq<Entry>, limitReached: bool)
    requires sig in results && results[sig] == []
    ensures OidsStep(results, messages, sig, cfg, Derived(options, limitReached)).executed
  {
  }

  /**
   * On a miss, the error paths store nothing and run nothing: a missing field
   * or a relationship mismatch return no options and log one error, an
   * uninstantiable view returns NULL and logs nothing.
   */
  lemma ErrorPathsStoreNothing(results: map<Signature, seq<Entry>>, messages: seq<Message>,
                               sig: Signature, cfg: Config, d: Derivation)
    requires !(sig in results && results[sig] != [])
    requires !d.Derived?
    ensures var s := OidsStep(results, messages, sig, cfg, d);
      s.results == results && !s.executed &&
      (d.Unavailable? ==> s.result.None? && s.messages == messages) &&
      (!d.Unavailable? ==> s.result == Some([]) && |s.messages| == |messages| + 1 &&
                           s.messages[..|messages|] == messages && SeverityOf(s.messages[|messages|]) == Error)
  {
    if !d.Unavailable? {
      var m := if d.MissingField? then MissingFieldError(cfg.adminLabel, cfg.baseField)
               else RelationshipError(cfg.adminLabel);
      assert OidsStep(results, messages, sig, cfg, d).messages == messages + [m];
      assert (messages + [m])[..|messages|] == messages;
    }
  }

  /**
   * On a miss that runs the copy, its options are stored and returned, and a
   * warning is appended iff the derivation reached the limit; otherwise the
   * queue is unchanged. DeriveSucceeds ties `limitReached` to the limit test.
   */
  lemma LimitWarningLogged(results: map<Signature, seq<Entry>>, messages: seq<Message>,
                           sig: Signature, cfg: Config, options: seq<Entry>, limitReached: bool)
    requires !(sig in results && results[sig] != [])
    ensures var s := OidsStep(results, messages, sig, cfg, Derived(options, limitReached));
      s.executed && s.result == Some(options) && s.results == results[sig := options] &&
      (s.messages == messages + [LimitWarning(cfg.adminLabel)] <==> limitReached) &&
      (s.messages == messages <==> !limitReached)
  {
    assert |messages + [LimitWarning(cfg.adminLabel)]| != |messages|;
    assert messages + [] == messages;
  }

  // ---------------------------------------------------------------------------
  // Request-scoped state and the filter handler

  /**
   * What lives for one request: the static `$results` cache shared by all
   * selective filters and the queue of drupal_set_message. `executions`
   * counts the runs of derivation copies.
   */
  class Request {
    var results: map<Signature, seq<Entry>>
    var messages: seq<Message>
    ghost var executions: nat

    constructor ()
      ensures results == map[] && messages == [] && executions == 0
    {
      results := map[];
      messages := [];
      executions := 0;
    }
  }

  /** The condition InOperator::query adds: the filter's table and real field against its value. */
  datatype Constraint = InValues(table: string, field: string)

  class SelectiveFilter {
    const cfg: Config
    /** The original filter's option list (getOriginalOptions). */
    const original: seq<Entry>
    const request: Request
    var view: ViewState
    /** `$this->valueOptions`; None while it is unset (or NULL). */
    var valueOptions: Option<seq<Entry>>
    /** The conditions this handler has added to its view's query. */
    var constraints: seq<Constraint>

    constructor (cfg: Config, original: seq<Entry>, request: Request, view: ViewState)
      ensures this.cfg == cfg && this.original == original && this.request == request
      ensures this.view == view && valueOptions == None && constraints == []
    {
      this.cfg := cfg;
      this.original := original;
      this.request := request;
      this.view := view;
      valueOptions := None;
      constraints := [];
    }

    /** Selective::query: no condition in the derivation pass of this very filter. */
    method Query()
      modifies this
      ensures view == old(view) && valueOptions == old(valueOptions)
      ensures QuerySkipped(view, cfg) ==> constraints == old(constraints)
      ensures !QuerySkipped(view, cfg) ==>
        constraints == old(constraints) + [InValues(cfg.table, cfg.displayField)]
    {
      if view.handlerSignature.Some? && GetSignature(view, cfg) == view.handlerSignature.value {
        return;
      }
      constraints := constraints + [InValues(cfg.table, cfg.displayField)];
    }

    /** Selective::getOids, with the cache and the message queue of `request`. */
    method GetOids(engine: Engine) returns (r: Option<seq<Entry>>)
      modifies request
      ensures var s := OidsStep(old(request.results), old(request.messages), GetSignature(view, cfg),
                                cfg, Derive(cfg, view, engine, original));
        r == s.result && request.results == s.results && request.messages == s.messages &&
        request.executions == old(request.executions) + (if s.executed then 1 else 0)
    {
      var signature := GetSignature(view, cfg);
      if signature !in request.results || request.results[signature] == [] {
        r := DeriveOids(engine, signature);
      } else {
        r := Some(request.results[signature]);
      }
    }

    /**
     * The body of Selective::getOids on a cache miss: cloning, validation,
     * running the copy, folding and sorting its rows, the limit warning and
     * storing the result.
     */
    method DeriveOids(engine: Engine, signature: Signature) returns (r: Option<seq<Entry>>)
      requires signature == GetSignature(view, cfg)
      requires !(signature in request.results && request.results[signature] != [])
      modifies request
      ensures var s := OidsStep(old(request.results), old(request.messages), signature,
                                cfg, Derive(cfg, view, engine, original));
        r == s.result && request.results == s.results && request.messages == s.messages &&
        request.executions == old(request.executions) + (if s.executed then 1 else 0)
    {
      var maxItems := cfg.itemsLimit;
      ghost var d := Derive(cfg, view, engine, original);
      DeriveFailures(cfg, view, engine, original);
      if !engine.instantiable {
        assert d == Unavailable;
        return None;
      }
      var copy := DerivedView(view, signature, maxItems);
      var found := FindField(engine.fields, cfg.displayField);
      if found.None? {
        assert d == MissingField;
        request.messages := request.messages + [MissingFieldError(cfg.adminLabel, cfg.baseField)];
        return Some([]);
      }
      var field := found.value;
      if !RelationshipsCoherent(field.relationship, cfg.relationship) {
        assert d == RelationshipMismatch;
        request.messages := request.messages + [RelationshipError(cfg.adminLabel)];
        return Some([]);
      }
      var rows := engine.run(copy, field.id);
      assert rows == DerivationRows(cfg, view, engine);
      request.executions := request.executions + 1;
      var oids := CollectOptions(rows);
      var options := SortOptions(cfg.displaySort, engine.compare, oids, original);
      DeriveSucceeds(cfg, view, engine, original);
      DeriveUnfold(cfg, view, engine, original);
      assert d == Derived(options, LimitReached(maxItems, |options|));
      if LimitReached(maxItems, |options|) {
        request.messages := request.messages + [LimitWarning(cfg.adminLabel)];
      }
      request.results := request.results[signature := options];
      r := Some(options);
    }

    /**
     * Selective::getValueOptions: a value once set is returned as it is;
     * inside a derivation pass, or before the view is initialised, the options
     * are empty; otherwise they are the derived options without the '' key.
     */
    method GetValueOptions(engine: Engine) returns (r: Option<seq<Entry>>)
      modifies this, request
      ensures constraints == old(constraints)
      ensures old(valueOptions).Some? ==>
        r == old(valueOptions) && valueOptions == old(valueOptions) && view == old(view) &&
        unchanged(request)
      ensures old(valueOptions).None? && (old(view).selectiveOids || !old(view).inited) ==>
        r == Some([]) && valueOptions == r && view == old(view) && unchanged(request)
      ensures old(valueOptions).None? && !old(view).selectiveOids && old(view).inited ==>
        var s := OidsStep(old(request.results), old(request.messages), GetSignature(old(view), cfg),
                          cfg, Derive(cfg, old(view), engine, original));
        r == (if s.result.None? then None else Some(WithoutKey(s.result.value, ""))) &&
        valueOptions == r && view == old(view).(usingSelective := true) &&
        (r.Some? ==> forall e :: e in r.value ==> e.key != "") &&
        request.results == s.results && request.messages == s.messages &&
        request.executions == old(request.executions) + (if s.executed then 1 else 0)
    {
      if valueOptions.Some? {
        return valueOptions;
      }
      valueOptions := Some([]);
      if !view.selectiveOids && view.inited {
        var oids := GetOids(engine);
        valueOptions := if oids.None? then None else Some(WithoutKey(oids.value, ""));
        view := view.(usingSelective := true);
      }
      r := valueOptions;
    }
  }
}
