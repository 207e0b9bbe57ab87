/**
 * `verifyTypeScriptSetup`: the reconciliation of a project's
 * `tsconfig.json` with a fixed table of compiler options. The TypeScript
 * compiler itself is not modelled: the options and the `include` and
 * `exclude` lists it resolves from the document are inputs, and the enum
 * values it produces (`ts.ScriptTarget.ES5` and the like) are opaque tokens.
 */
module TypeScriptSetup {
  import opened Wrappers
  import opened Text
  import opened Json
  import Eject

  /**
   * One row of the option table. A row with a `suggested` value only fills
   * in an option the resolved configuration lacks; any other row forces
   * `value` whenever the resolved option differs from `parsedValue`, or
   * from `value` when the row has no `parsedValue`. `None` is `undefined`.
   */
  datatype Rule = Rule(option: string, parsedValue: Option<Value>, value: Option<Value>, suggested: Option<Value>, reason: Option<string>)

  /** The option table, in the order the code visits it. */
  const Policy: seq<Rule> := [
    Rule("target", Some(Token("ScriptTarget.ES5")), None, Some(Str("es5")), None),
    Rule("allowJs", None, None, Some(Bool(true)), None),
    Rule("skipLibCheck", None, None, Some(Bool(true)), None),
    Rule("esModuleInterop", None, None, Some(Bool(true)), None),
    Rule("allowSyntheticDefaultImports", None, None, Some(Bool(true)), None),
    Rule("strict", None, None, Some(Bool(true)), None),
    Rule("module", Some(Token("ModuleKind.ESNext")), Some(Str("esnext")), None, Some("for import() and import/export")),
    Rule("moduleResolution", Some(Token("ModuleResolutionKind.NodeJs")), Some(Str("node")), None, Some("to match webpack resolution")),
    Rule("resolveJsonModule", None, Some(Bool(true)), None, Some("to match webpack loader")),
    Rule("isolatedModules", None, Some(Bool(true)), None, Some("implementation limitation")),
    Rule("noEmit", None, Some(Bool(true)), None, None),
    Rule("jsx", Some(Token("JsxEmit.Preserve")), Some(Str("preserve")), None, Some("JSX is compiled by Babel"))
  ]

  /** `include` written when the resolved configuration has none. */
  const DefaultInclude: Value := Arr([Str("src")])

  /** `exclude` written when the resolved configuration has none: test files. */
  const DefaultExclude: Value := Arr([Str("**/__tests__/**"), Str("**/?*test.*"), Str("**/?*spec.*")])

  /** One line of the report printed before the file is rewritten. */
  datatype Message =
    | Suggested(option: string, value: Value)
    | Required(option: string, value: Value, reason: Option<string>)
    | IncludeDefault
    | ExcludeDefault

  /** `suggested != null`: the row only fills in a missing option. */
  predicate Suggests(r: Rule)
  {
    r.suggested.Some? && !r.suggested.value.Null?
  }

  /** The value the resolved option is compared with. */
  function ValueToCheck(r: Rule): Option<Value>
  {
    if r.parsedValue.None? then r.value else r.parsedValue
  }

  /** `parsedCompilerOptions[option]`, with `None` for `undefined`. */
  function Resolved(parsed: map<string, Value>, option: string): Option<Value>
  {
    if option in parsed then Some(parsed[option]) else None
  }

  /** A row writes something: every row either suggests or forces a defined value. */
  predicate RuleWellFormed(r: Rule)
  {
    Suggests(r) || r.value.Some?
  }

  /** Every row writes something. */
  predicate RulesWellFormed(rules: seq<Rule>)
  {
    forall i :: 0 <= i < |rules| ==> RuleWellFormed(rules[i])
  }

  /** No option has two rows. */
  ghost predicate OptionsDistinct(rules: seq<Rule>)
  {
    forall i, j :: 0 <= i < j < |rules| ==> rules[i].option != rules[j].option
  }

  /** The row changes the document: a suggestion for an unset option, or a required value that does not match. */
  predicate Fires(r: Rule, parsed: map<string, Value>)
  {
    if Suggests(r) then r.option !in parsed else Resolved(parsed, r.option) != ValueToCheck(r)
  }

  /** What a firing row writes. */
  function Written(r: Rule): Value
    requires RuleWellFormed(r)
  {
    if Suggests(r) then r.suggested.value else r.value.value
  }

  /** What a firing row reports. */
  function Report(r: Rule): Message
    requires RuleWellFormed(r)
  {
    if Suggests(r) then Suggested(r.option, r.suggested.value) else Required(r.option, r.value.value, r.reason)
  }

  /** The `compilerOptions` object after the rows `rules` have been visited in order. */
  ghost function PolicyOptions(opts: Dict<Value>, rules: seq<Rule>, parsed: map<string, Value>): (d: Dict<Value>)
    requires opts.Valid()
    requires RulesWellFormed(rules)
    ensures d.Valid()
    decreases |rules|
  {
    if rules == [] then opts
    else
      var r := rules[|rules| - 1];
      var front := PolicyOptions(opts, rules[..|rules| - 1], parsed);
      if Fires(r, parsed) then front.Put(r.option, Written(r)) else front
  }

  /** The report after the rows `rules` have been visited in order: one line per firing row. */
  ghost function PolicyMessages(rules: seq<Rule>, parsed: map<string, Value>): seq<Message>
    requires RulesWellFormed(rules)
    decreases |rules|
  {
    if rules == [] then []
    else
      var r := rules[|rules| - 1];
      PolicyMessages(rules[..|rules| - 1], parsed) + (if Fires(r, parsed) then [Report(r)] else [])
  }

  /**
   * The loop over the option table: a suggested value is set, with a
   * message, when the resolved option is `undefined`; a required value is
   * set, with a message, when the resolved option differs from the value
   * to check.
   */
  method ApplyCompilerOptionPolicy(opts: Dict<Value>, rules: seq<Rule>, parsed: map<string, Value>)
    returns (newOpts: Dict<Value>, messages: seq<Message>)
    requires opts.Valid()
    requires RulesWellFormed(rules)
    ensures newOpts == PolicyOptions(opts, rules, parsed)
    ensures messages == PolicyMessages(rules, parsed)
  {
    newOpts := opts;
    messages := [];
    for i := 0 to |rules|
      invariant newOpts == PolicyOptions(opts, rules[..i], parsed)
      invariant messages == PolicyMessages(rules[..i], parsed)
    {
      var r := rules[i];
      assert rules[..i + 1][..i] == rules[..i];
      var valueToCheck := if r.parsedValue.None? then r.value else r.parsedValue;
      if r.suggested.Some? && !r.suggested.value.Null? {
        if r.option !in parsed {
          newOpts := newOpts.Put(r.option, r.suggested.value);
          messages := messages + [Suggested(r.option, r.suggested.value)];
        }
      } else if Resolved(parsed, r.option) != valueToCheck {
        newOpts := newOpts.Put(r.option, r.value.value);
        messages := messages + [Required(r.option, r.value.value, r.reason)];
      }
    }
    assert rules[..|rules|] == rules;
  }

  /** The report is empty exactly when no row fires: a compliant configuration produces no messages. */
  lemma {:induction false} PolicyMessagesEmpty(rules: seq<Rule>, parsed: map<string, Value>)
    requires RulesWellFormed(rules)
    ensures PolicyMessages(rules, parsed) == [] <==> forall i :: 0 <= i < |rules| ==> !Fires(rules[i], parsed)
    decreases |rules|
  {
    if rules != [] {
      var front := rules[..|rules| - 1];
      PolicyMessagesEmpty(front, parsed);
      assert forall i :: 0 <= i < |front| ==> front[i] == rules[i];
    }
  }

  /** One message per firing row, never more than one per row. */
  lemma {:induction false} PolicyMessagesCount(rules: seq<Rule>, parsed: map<string, Value>)
    requires RulesWellFormed(rules)
    ensures |PolicyMessages(rules, parsed)| <= |rules|
    ensures forall m :: m in PolicyMessages(rules, parsed) ==> exists i :: 0 <= i < |rules| && Fires(rules[i], parsed) && m == Report(rules[i])
    decreases |rules|
  {
    if rules != [] {
      var front := rules[..|rules| - 1];
      PolicyMessagesCount(front, parsed);
      forall m | m in PolicyMessages(rules, parsed)
        ensures exists i :: 0 <= i < |rules| && Fires(rules[i], parsed) && m == Report(rules[i])
      {
        if m in PolicyMessages(front, parsed) {
          var i :| 0 <= i < |front| && Fires(front[i], parsed) && m == Report(front[i]);
          assert front[i] == rules[i];
        } else {
          assert Fires(rules[|rules| - 1], parsed) && m == Report(rules[|rules| - 1]);
        }
      }
    }
  }

  /** The rows that fire, by index. */
  ghost function FiringRows(rules: seq<Rule>, parsed: map<string, Value>): set<nat>
  {
    set i: nat | i < |rules| && Fires(rules[i], parsed)
  }

  /** The firing rows of a table are those of its front and, when it fires, the last row. */
  lemma {:induction false} FiringRowsLast(rules: seq<Rule>, parsed: map<string, Value>)
    requires rules != []
    ensures FiringRows(rules, parsed) ==
      FiringRows(rules[..|rules| - 1], parsed) + (if Fires(rules[|rules| - 1], parsed) then {|rules| - 1} else {})
  {
    var n := |rules| - 1;
    var front := rules[..n];
    var extra: set<nat> := if Fires(rules[n], parsed) then {n} else {};
    forall i: nat | i in FiringRows(rules, parsed) ensures i in FiringRows(front, parsed) + extra {
      if i < n {
        assert front[i] == rules[i];
      }
    }
    forall i: nat | i in FiringRows(front, parsed) ensures i in FiringRows(rules, parsed) {
      assert front[i] == rules[i];
    }
  }

  /** The report has exactly one message per firing row. */
  lemma {:induction false} PolicyMessagesFiring(rules: seq<Rule>, parsed: map<string, Value>)
    requires RulesWellFormed(rules)
    ensures |PolicyMessages(rules, parsed)| == |FiringRows(rules, parsed)|
    decreases |rules|
  {
    if rules != [] {
      var n := |rules| - 1;
      var front := rules[..n];
      assert RulesWellFormed(front) by {
        forall j | 0 <= j < n ensures RuleWellFormed(front[j]) {
          assert front[j] == rules[j];
        }
      }
      PolicyMessagesFiring(front, parsed);
      FiringRowsLast(rules, parsed);
      assert n !in FiringRows(front, parsed);
    }
  }

  /** The front of a well-formed table is well formed, and names distinct options when the table does. */
  lemma {:induction false} FrontOfTable(rules: seq<Rule>)
    requires rules != [] && RulesWellFormed(rules)
    ensures RulesWellFormed(rules[..|rules| - 1])
    ensures OptionsDistinct(rules) ==> OptionsDistinct(rules[..|rules| - 1])
  {
    var front := rules[..|rules| - 1];
    forall j | 0 <= j < |front| ensures RuleWellFormed(front[j]) {
      assert front[j] == rules[j];
    }
    if OptionsDistinct(rules) {
      forall j, k | 0 <= j < k < |front| ensures front[j].option != front[k].option {
        assert front[j] == rules[j] && front[k] == rules[k];
      }
    }
  }

  /** No row names the option of `r`: the report holds no message of `r`. */
  lemma {:induction false} NoReportFor(rules: seq<Rule>, parsed: map<string, Value>, r: Rule)
    requires RulesWellFormed(rules) && RuleWellFormed(r)
    requires forall j :: 0 <= j < |rules| ==> rules[j].option != r.option
    ensures Report(r) !in PolicyMessages(rules, parsed)
    decreases |rules|
  {
    if rules != [] {
      var n := |rules| - 1;
      var front := rules[..n];
      FrontOfTable(rules);
      assert forall j :: 0 <= j < n ==> front[j].option != r.option by {
        forall j | 0 <= j < n ensures front[j].option != r.option {
          assert front[j] == rules[j];
        }
      }
      NoReportFor(front, parsed, r);
      assert Report(rules[n]).option == rules[n].option;
    }
  }

  /** The last row's message is in the report once when that row fires, given that no other row names its option. */
  lemma {:induction false} ReportCountLast(rules: seq<Rule>, parsed: map<string, Value>)
    requires rules != [] && RulesWellFormed(rules) && OptionsDistinct(rules)
    ensures var n := |rules| - 1;
      multiset(PolicyMessages(rules, parsed))[Report(rules[n])] == if Fires(rules[n], parsed) then 1 else 0
  {
    var n := |rules| - 1;
    var front := rules[..n];
    FrontOfTable(rules);
    assert forall j :: 0 <= j < n ==> front[j].option != rules[n].option by {
      forall j | 0 <= j < n ensures front[j].option != rules[n].option {
        assert front[j] == rules[j];
      }
    }
    NoReportFor(front, parsed, rules[n]);
  }

  /** Visiting the last row leaves the count of an earlier row's message as it was after the front. */
  lemma {:induction false} ReportCountKept(rules: seq<Rule>, parsed: map<string, Value>, i: nat)
    requires RulesWellFormed(rules) && OptionsDistinct(rules) && i < |rules| - 1
    requires RulesWellFormed(rules[..|rules| - 1])
    requires var front := rules[..|rules| - 1];
      multiset(PolicyMessages(front, parsed))[Report(front[i])] == if Fires(front[i], parsed) then 1 else 0
    ensures multiset(PolicyMessages(rules, parsed))[Report(rules[i])] == if Fires(rules[i], parsed) then 1 else 0
  {
    var n := |rules| - 1;
    assert rules[..n][i] == rules[i];
    assert Report(rules[n]).option != Report(rules[i]).option;
  }

  /**
   * With one row per option, a row's message is in the report exactly once
   * when the row fires and not at all otherwise.
   */
  lemma {:induction false} PolicyMessagesOnce(rules: seq<Rule>, parsed: map<string, Value>, i: nat)
    requires RulesWellFormed(rules) && OptionsDistinct(rules) && i < |rules|
    ensures multiset(PolicyMessages(rules, parsed))[Report(rules[i])] == if Fires(rules[i], parsed) then 1 else 0
    decreases |rules|
  {
    var n := |rules| - 1;
    if i < n {
      FrontOfTable(rules);
      PolicyMessagesOnce(rules[..n], parsed, i);
      ReportCountKept(rules, parsed, i);
    } else {
      ReportCountLast(rules, parsed);
    }
  }

  /**
   * Each row's option ends up with the row's value when the row fires and
   * keeps its old entry (present or not) when it does not: in particular a
   * suggestion never overwrites an option the user set.
   */
  lemma {:induction false} PolicyOptionsRow(opts: Dict<Value>, rules: seq<Rule>, parsed: map<string, Value>, i: nat)
    requires opts.Valid() && RulesWellFormed(rules) && i < |rules|
    requires forall j :: 0 <= j < |rules| && j != i ==> rules[j].option != rules[i].option
    ensures PolicyOptions(opts, rules, parsed).Get(rules[i].option) ==
      if Fires(rules[i], parsed) then Some(Written(rules[i])) else opts.Get(rules[i].option)
    decreases |rules|
  {
    var front := rules[..|rules| - 1];
    assert forall j :: 0 <= j < |front| ==> front[j] == rules[j];
    if i < |rules| - 1 {
      PolicyOptionsRow(opts, front, parsed, i);
    } else {
      PolicyOptionsOther(opts, front, parsed, rules[i].option);
    }
  }

  /** Options no row names are left exactly as they were. */
  lemma {:induction false} PolicyOptionsOther(opts: Dict<Value>, rules: seq<Rule>, parsed: map<string, Value>, k: string)
    requires opts.Valid()
    requires RulesWellFormed(rules)
    requires forall i :: 0 <= i < |rules| ==> rules[i].option != k
    ensures PolicyOptions(opts, rules, parsed).Get(k) == opts.Get(k)
    decreases |rules|
  {
    if rules != [] {
      var front := rules[..|rules| - 1];
      assert forall i :: 0 <= i < |front| ==> front[i] == rules[i];
      PolicyOptionsOther(opts, front, parsed, k);
    }
  }

  /** With no option resolved, every row fires: a fresh configuration receives the whole table. */
  lemma AllFireWhenNothingResolved(rules: seq<Rule>)
    requires RulesWellFormed(rules)
    ensures forall i :: 0 <= i < |rules| ==> Fires(rules[i], map[])
  {
  }

  /** Every row of the option table writes something. */
  lemma PolicyRulesWellFormed()
    ensures RulesWellFormed(Policy)
  {
  }

  /** A length and a first character that tell the table's option names apart. */
  function Tag(s: string): int
  {
    if s == [] then 0 else |s| * 256 + s[0] as int
  }

  /** The twelve rows of the option table name twelve different options. */
  lemma PolicyOptionsDistinct()
    ensures OptionsDistinct(Policy)
  {
    var tags := [Tag("target"), Tag("allowJs"), Tag("skipLibCheck"), Tag("esModuleInterop"),
      Tag("allowSyntheticDefaultImports"), Tag("strict"), Tag("module"), Tag("moduleResolution"),
      Tag("resolveJsonModule"), Tag("isolatedModules"), Tag("noEmit"), Tag("jsx")];
    assert forall i :: 0 <= i < |Policy| ==> Tag(Policy[i].option) == tags[i];
    assert forall i, j :: 0 <= i < j < |tags| ==> tags[i] != tags[j];
  }

  /**
   * After the loop over the option table, each row's option holds the row's
   * value when the row fires and its previous entry otherwise; a suggestion
   * never overwrites an option the user set.
   */
  lemma PolicyResult(opts: Dict<Value>, parsed: map<string, Value>, i: nat)
    requires opts.Valid() && i < |Policy|
    ensures PolicyOptions(opts, Policy, parsed).Get(Policy[i].option) ==
      if Fires(Policy[i], parsed) then Some(Written(Policy[i])) else opts.Get(Policy[i].option)
  {
    PolicyRulesWellFormed();
    PolicyOptionsDistinct();
    PolicyOptionsRow(opts, Policy, parsed, i);
  }

  /** `paths.appIndexJs.match(/\.tsx?$/)`: the entry file name ends in `.ts` or `.tsx`. */
  predicate IsTypeScriptEntry(path: string)
  {
    (|path| >= 3 && path[|path| - 3..] == ".ts") || (|path| >= 4 && path[|path| - 4..] == ".tsx")
  }

  /** The values the compiler resolves from the document, `extends` chains included. */
  datatype ResolvedConfig = ResolvedConfig(options: map<string, Value>, includes: Option<Value>, excludes: Option<Value>)

  /** `x == null`: `undefined` or `null`. */
  predicate IsNullish(v: Option<Value>)
  {
    v.None? || v.value.Null?
  }

  /** The document's `compilerOptions` is missing, `null`, or an object. */
  ghost predicate CompilerOptionsReadable(doc: Dict<Value>)
  {
    var co := doc.Get("compilerOptions");
    IsNullish(co) || (co.value.Obj? && co.value.obj.Valid())
  }

  /** The `compilerOptions` object the loop starts from. */
  function StartOptions(doc: Dict<Value>): (opts: Dict<Value>)
    requires CompilerOptionsReadable(doc)
    ensures opts.Valid()
  {
    var co := doc.Get("compilerOptions");
    if IsNullish(co) then EmptyDict() else co.value.obj
  }

  /**
   * What one run leaves behind. `NotTypeScript` is the early return; a
   * reconciled run records the document as it stands at the end, the report,
   * the flag that selects which report is printed, whether an empty
   * `tsconfig.json` was created first, whether the document was written
   * back, and the declaration file copied into the sources.
   */
  datatype Outcome =
    | NotTypeScript
    | Reconciled(config: Dict<Value>, messages: seq<Message>, firstTimeSetup: bool, createdEmpty: bool, written: bool, declarations: string)

  /** The `compilerOptions` object the option table leaves behind. */
  ghost function TableOptions(opts: Dict<Value>, parsed: map<string, Value>): (d: Dict<Value>)
    requires opts.Valid()
    ensures d.Valid()
  {
    PolicyRulesWellFormed();
    PolicyOptions(opts, Policy, parsed)
  }

  /** The report the option table produces. */
  ghost function TableMessages(parsed: map<string, Value>): seq<Message>
  {
    PolicyRulesWellFormed();
    PolicyMessages(Policy, parsed)
  }

  /** The messages for the `include` and `exclude` defaults, in that order. */
  function PathMessages(resolved: ResolvedConfig): seq<Message>
  {
    (if IsNullish(resolved.includes) then [IncludeDefault] else [])
    + (if IsNullish(resolved.excludes) then [ExcludeDefault] else [])
  }

  /** The three entries the check writes have different names. */
  lemma EntryNamesDiffer()
    ensures "include" != "exclude" && "include" != "compilerOptions" && "exclude" != "compilerOptions"
  {
    assert "include"[0] == 'i' && "exclude"[0] == 'e';
  }

  /** The document as read back: an empty object is written first when there is none. */
  function Document(existing: Option<Dict<Value>>): Dict<Value>
  {
    if existing.Some? then existing.value else EmptyDict()
  }

  /**
   * `compilerOptions` holds the object the option loop filled in; a missing
   * or `null` entry was replaced by an empty object before the loop, so the
   * key keeps its place when it had one and is appended otherwise.
   */
  method InstallCompilerOptions(doc: Dict<Value>, options: Dict<Value>) returns (config: Dict<Value>)
    requires doc.Valid() && options.Valid()
    ensures config.Valid()
    ensures config.keys == doc.keys + (if "compilerOptions" in doc.values then [] else ["compilerOptions"])
    ensures config.Get("compilerOptions") == Some(Obj(options))
    ensures forall k :: k != "compilerOptions" ==> config.Get(k) == doc.Get(k)
  {
    config := doc;
    if IsNullish(doc.Get("compilerOptions")) {
      config := config.Put("compilerOptions", Obj(EmptyDict()));
    }
    config := config.Put("compilerOptions", Obj(options));
  }

  /**
   * `if (parsed.include == null) appTsConfig.include = ...`: the default is
   * written under `key` when the compiler resolves no value for it,
   * `extends` chains included; every other entry is kept.
   */
  method SetDefault(config: Dict<Value>, key: string, default: Value, resolvedValue: Option<Value>)
    returns (out: Dict<Value>)
    requires config.Valid()
    ensures out.Valid()
    ensures out.Get(key) == if IsNullish(resolvedValue) then Some(default) else config.Get(key)
    ensures forall k :: k != key ==> out.Get(k) == config.Get(k)
  {
    out := config;
    if IsNullish(resolvedValue) {
      out := config.Put(key, default);
    }
  }

  /**
   * The whole check. `existing` is the document on disk (`None` when there
   * is no `tsconfig.json`), `resolved` what the compiler makes of it, and
   * `declaredTypes` the contents of the bundled declaration file.
   */
  method VerifyTypeScriptSetup(existing: Option<Dict<Value>>, appIndexJs: string, resolved: ResolvedConfig, declaredTypes: string)
    returns (outcome: Outcome)
    requires existing.Some? ==> existing.value.Valid() && CompilerOptionsReadable(existing.value)
    ensures outcome.NotTypeScript? <==> existing.None? && !IsTypeScriptEntry(appIndexJs)
    ensures outcome.Reconciled? ==> outcome.createdEmpty == existing.None?
    ensures outcome.Reconciled? ==>
      (outcome.firstTimeSetup <==> existing.None? || IsNullish(Document(existing).Get("compilerOptions")))
    ensures outcome.Reconciled? ==> outcome.config.Valid()
    ensures outcome.Reconciled? ==>
      outcome.config.Get("compilerOptions") == Some(Obj(TableOptions(StartOptions(Document(existing)), resolved.options)))
    ensures outcome.Reconciled? ==>
      outcome.config.Get("include") ==
        if IsNullish(resolved.includes) then Some(DefaultInclude) else Document(existing).Get("include")
    ensures outcome.Reconciled? ==>
      outcome.config.Get("exclude") ==
        if IsNullish(resolved.excludes) then Some(DefaultExclude) else Document(existing).Get("exclude")
    ensures outcome.Reconciled? ==>
      forall k :: k != "compilerOptions" && k != "include" && k != "exclude" ==>
        outcome.config.Get(k) == Document(existing).Get(k)
    ensures outcome.Reconciled? ==>
      outcome.messages == TableMessages(resolved.options) + PathMessages(resolved)
    ensures outcome.Reconciled? ==> (outcome.written <==> outcome.messages != [])
    ensures outcome.Reconciled? ==> outcome.declarations == StripDeclarationMarker(declaredTypes)
  {
    var firstTimeSetup := false;
    var createdEmpty := false;
    if existing.None? {
      if !IsTypeScriptEntry(appIndexJs) {
        return NotTypeScript;
      }
      createdEmpty := true;
      firstTimeSetup := true;
    }
    var doc := Document(existing);
    var start := StartOptions(doc);
    if IsNullish(doc.Get("compilerOptions")) {
      firstTimeSetup := true;
    }
    PolicyRulesWellFormed();
    var options, policyMessages := ApplyCompilerOptionPolicy(start, Policy, resolved.options);
    var config := InstallCompilerOptions(doc, options);
    EntryNamesDiffer();
    config := SetDefault(config, "include", DefaultInclude, resolved.includes);
    config := SetDefault(config, "exclude", DefaultExclude, resolved.excludes);
    var messages := policyMessages + PathMessages(resolved);
    var written := |messages| > 0;
    outcome := Reconciled(config, messages, firstTimeSetup, createdEmpty, written, StripDeclarationMarker(declaredTypes));
  }

  /**
   * A configuration that already satisfies every row and already resolves
   * `include` and `exclude` produces no report and is therefore not written;
   * any other configuration is.
   */
  lemma NoWriteWhenCompliant(resolved: ResolvedConfig)
    ensures TableMessages(resolved.options) + PathMessages(resolved) == [] <==>
      (forall i :: 0 <= i < |Policy| ==> !Fires(Policy[i], resolved.options)) &&
      !IsNullish(resolved.includes) && !IsNullish(resolved.excludes)
  {
    PolicyRulesWellFormed();
    PolicyMessagesEmpty(Policy, resolved.options);
  }

  /** When every row fires, the report lists every row, in table order. */
  lemma {:induction false} PolicyMessagesAllFire(rules: seq<Rule>, parsed: map<string, Value>)
    requires RulesWellFormed(rules)
    requires forall i :: 0 <= i < |rules| ==> Fires(rules[i], parsed)
    ensures |PolicyMessages(rules, parsed)| == |rules|
    ensures forall i :: 0 <= i < |rules| ==> PolicyMessages(rules, parsed)[i] == Report(rules[i])
    decreases |rules|
  {
    if rules != [] {
      var front := rules[..|rules| - 1];
      assert forall j :: 0 <= j < |front| ==> front[j] == rules[j];
      PolicyMessagesAllFire(front, parsed);
    }
  }

  /**
   * A project without a `tsconfig.json` (or whose configuration resolves no
   * options) receives every row of the table: each option is set to the
   * row's value and the report names all twelve, suggestions and required
   * values alike.
   */
  lemma FreshConfiguration(opts: Dict<Value>, i: nat)
    requires opts.Valid() && i < |Policy|
    ensures |TableMessages(map[])| == |Policy|
    ensures TableMessages(map[])[i] == Report(Policy[i])
    ensures TableOptions(opts, map[]).Get(Policy[i].option) == Some(Written(Policy[i]))
  {
    PolicyRulesWellFormed();
    AllFireWhenNothingResolved(Policy);
    PolicyMessagesAllFire(Policy, map[]);
    PolicyResult(opts, map[], i);
  }

  // The declaration file: the first marker line is removed.

  /**
   * Length of the match of `marker` followed by `\r\n` or `\n` at index
   * `i`, or 0 when there is none; `\r\n` is tried first, as the optional
   * `\r?` is greedy.
   */
  function MarkerLineLength(s: string, marker: string, i: nat): (n: nat)
    ensures n == 0 || n == |marker| + 1 || n == |marker| + 2
  {
    if OccursAt(s, marker + "\r\n", i) then |marker| + 2
    else if OccursAt(s, marker + "\n", i) then |marker| + 1
    else 0
  }

  /**
   * A marker line matches exactly where the marker is followed by `\n` or
   * `\r\n`; the match ends with the `\n`, and takes the `\r` with it
   * whenever there is one.
   */
  lemma MarkerLineMatch(s: string, marker: string, i: nat)
    ensures MarkerLineLength(s, marker, i) > 0 <==> OccursAt(s, marker + "\n", i) || OccursAt(s, marker + "\r\n", i)
    ensures MarkerLineLength(s, marker, i) > 0 ==>
      OccursAt(s, marker, i) && s[i + MarkerLineLength(s, marker, i) - 1] == '\n'
    ensures OccursAt(s, marker + "\r\n", i) ==> MarkerLineLength(s, marker, i) == |marker| + 2
  {
    var n := MarkerLineLength(s, marker, i);
    if n > 0 {
      var nl := if n == |marker| + 2 then "\r\n" else "\n";
      assert OccursAt(s, marker + nl, i);
      assert (marker + nl)[n - 1] == '\n';
      forall m | 0 <= m < |marker| ensures s[i + m] == marker[m] {
        assert (marker + nl)[m] == marker[m];
      }
    }
  }

  /** The first index at or after `from` where a marker line starts, or -1. */
  function FindMarkerLine(s: string, marker: string, from: nat): (r: int)
    ensures r == -1 || (from <= r && MarkerLineLength(s, marker, r) > 0)
    ensures r >= 0 ==> forall k: nat :: from <= k < r ==> MarkerLineLength(s, marker, k) == 0
    ensures r == -1 ==> forall k: nat :: from <= k ==> MarkerLineLength(s, marker, k) == 0
    decreases |s| - from
  {
    if from + |marker| + 1 > |s| then -1
    else if MarkerLineLength(s, marker, from) > 0 then from
    else FindMarkerLine(s, marker, from + 1)
  }

  /** `s.replace(/marker\r?\n/, '')`: the first marker line, line break included, is removed. */
  function StripMarkerLine(s: string, marker: string): string
  {
    var i := FindMarkerLine(s, marker, 0);
    if i < 0 then s else s[..i] + s[i + MarkerLineLength(s, marker, i)..]
  }

  /** The copy of the declaration file without its `// @remove-file-on-eject` line. */
  function StripDeclarationMarker(content: string): string
  {
    StripMarkerLine(content, Eject.RemoveFileMarker)
  }

  /** Content is returned unchanged exactly when it holds no marker line. */
  lemma StripMarkerLineUnchanged(s: string, marker: string)
    ensures StripMarkerLine(s, marker) == s <==> forall k: nat :: MarkerLineLength(s, marker, k) == 0
  {
    var i := FindMarkerLine(s, marker, 0);
    if i >= 0 {
      assert |StripMarkerLine(s, marker)| < |s|;
    }
  }

  /**
   * The first marker line is removed with its line break, and nothing else:
   * the text before it and all the text after it, later marker lines
   * included, are kept.
   */
  lemma StripMarkerLineFirst(a: string, marker: string, newline: string, b: string)
    requires newline == "\n" || newline == "\r\n"
    requires forall k: nat :: k < |a| ==> MarkerLineLength(a + marker + newline + b, marker, k) == 0
    ensures StripMarkerLine(a + marker + newline + b, marker) == a + b
  {
    var s := a + marker + newline + b;
    var p := |a|;
    assert OccursAt(s, marker + newline, p) by {
      forall m | 0 <= m < |marker + newline|
        ensures s[p + m] == (marker + newline)[m]
      {
        assert s == a + (marker + newline) + b;
      }
    }
    if newline == "\n" {
      assert s[p + |marker|] == (marker + newline)[|marker|] == '\n';
      assert (marker + "\r\n")[|marker|] == '\r';
      NotOccursAt(s, marker + "\r\n", p, |marker|);
    }
    assert MarkerLineLength(s, marker, p) == |marker| + |newline|;
    assert FindMarkerLine(s, marker, 0) == p;
    assert s[..p] == a;
    assert s[p + |marker| + |newline|..] == b;
  }

  /** A declaration file that starts with the marker line loses exactly that line. */
  lemma StripDeclarationHeader(newline: string, rest: string)
    requires newline == "\n" || newline == "\r\n"
    ensures StripDeclarationMarker(Eject.RemoveFileMarker + newline + rest) == rest
  {
    StripMarkerLineFirst([], Eject.RemoveFileMarker, newline, rest);
    assert [] + Eject.RemoveFileMarker + newline + rest == Eject.RemoveFileMarker + newline + rest;
  }
}
