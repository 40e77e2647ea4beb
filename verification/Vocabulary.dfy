/**
 The verb resolver (`resolver.ts`) and the trace it guards: two lookup tables built from a list of
 concepts where the first claim wins, the validator, and the append-only trace.
 */
module Vocabulary {
  import opened Prelude
  import opened Text

  /** A verb of a profile. A missing label is the empty string. */
  datatype Concept = Concept(
    id: string, prefLabel: string, exactMatch: seq<string>, broadMatch: seq<string>, closeMatch: seq<string>)
  {
    /** `v.prefLabel?.en || v.id.split("/").pop()` */
    function Label(): string {
      if prefLabel != "" then prefLabel
      else
        var parts := Split(id, '/');
        parts[|parts| - 1]
    }

    function Aliases(): seq<string> {
      exactMatch + broadMatch + closeMatch
    }

    /** Every IRI the concept lays claim to. */
    predicate Lists(iri: string) {
      iri == id || iri in Aliases()
    }
  }

  lemma {:induction false} LastPart(s: string)
    requires '/' in s
    ensures var parts := Split(s, '/');
            var last := parts[|parts| - 1];
            |parts| > 1 && '/' !in last && |s| > |last| && s[|s| - |last| - 1..] == "/" + last
  {
    assert s == [s[0]] + s[1..];
    var rest := Split(s[1..], '/');
    var last := rest[|rest| - 1];
    if '/' in s[1..] {
      LastPart(s[1..]);
      assert s[|s| - |last| - 1..] == s[1..][|s[1..]| - |last| - 1..];
    } else {
      SplitWhole(s[1..], '/');
      assert s == "/" + last;
    }
  }

  /** A concept without a preferred label is called by what stands behind the last slash of its id. */
  lemma LabelMeans(v: Concept)
    ensures v.prefLabel != "" ==> v.Label() == v.prefLabel
    ensures v.prefLabel == "" ==>
              && '/' !in v.Label()
              && (v.id == v.Label() || (|v.id| > |v.Label()| && v.id[|v.id| - |v.Label()| - 1..] == "/" + v.Label()))
  {
    if '/' in v.id {
      LastPart(v.id);
    } else {
      SplitWhole(v.id, '/');
    }
  }

  datatype Tables = Tables(iriToVerb: map<string, string>, verbToIri: map<string, string>)

  // ---------------------------------------------------------------------------------------
  // Building the tables
  // ---------------------------------------------------------------------------------------

  /** The earliest concept that lists an IRI. */
  function FirstListing(concepts: seq<Concept>, iri: string): (i: Option<nat>)
    ensures i.Some? ==> i.value < |concepts| && concepts[i.value].Lists(iri)
    ensures i.Some? ==> forall j :: 0 <= j < i.value ==> !concepts[j].Lists(iri)
    ensures i.None? ==> forall j :: 0 <= j < |concepts| ==> !concepts[j].Lists(iri)
    decreases |concepts|
  {
    if concepts == [] then None
    else
      var n := |concepts| - 1;
      var before := FirstListing(concepts[..n], iri);
      if before.Some? then before else if concepts[n].Lists(iri) then Some(n) else None
  }

  /** The earliest concept with a label. */
  function FirstLabelled(concepts: seq<Concept>, name: string): (i: Option<nat>)
    ensures i.Some? ==> i.value < |concepts| && concepts[i.value].Label() == name
    ensures i.Some? ==> forall j :: 0 <= j < i.value ==> concepts[j].Label() != name
    ensures i.None? ==> forall j :: 0 <= j < |concepts| ==> concepts[j].Label() != name
    decreases |concepts|
  {
    if concepts == [] then None
    else
      var n := |concepts| - 1;
      var before := FirstLabelled(concepts[..n], name);
      if before.Some? then before else if concepts[n].Label() == name then Some(n) else None
  }

  ghost predicate IriPart(t: Tables, concepts: seq<Concept>) {
    && (forall iri :: iri in t.iriToVerb <==> FirstListing(concepts, iri).Some?)
    && (forall iri :: iri in t.iriToVerb ==> t.iriToVerb[iri] == concepts[FirstListing(concepts, iri).value].Label())
  }

  ghost predicate NamePart(t: Tables, concepts: seq<Concept>) {
    && (forall name :: name in t.verbToIri <==> FirstLabelled(concepts, name).Some?)
    && (forall name :: name in t.verbToIri ==> t.verbToIri[name] == concepts[FirstLabelled(concepts, name).value].id)
  }

  /** The tables of a concept list: an IRI goes to the label of the earliest concept listing it, a
      label to the id of the earliest concept with it, and nothing else is in them. */
  ghost predicate IsTableOf(t: Tables, concepts: seq<Concept>) {
    IriPart(t, concepts) && NamePart(t, concepts)
  }

  /** The IRIs in a table are those that are the id or a match, exact, broad or close, of a concept; each
      goes to the label of the first such concept. */
  lemma TablesKnow(t: Tables, concepts: seq<Concept>, iri: string)
    requires IsTableOf(t, concepts)
    ensures iri in t.iriToVerb <==>
              exists v :: v in concepts
                && (iri == v.id || iri in v.exactMatch || iri in v.broadMatch || iri in v.closeMatch)
    ensures iri in t.iriToVerb ==>
              exists i :: 0 <= i < |concepts| && t.iriToVerb[iri] == concepts[i].Label()
                && concepts[i].Lists(iri) && forall j :: 0 <= j < i ==> !concepts[j].Lists(iri)
  {
    assert forall v: Concept :: v.Lists(iri) <==>
             iri == v.id || iri in v.exactMatch || iri in v.broadMatch || iri in v.closeMatch;
    hide Concept.Lists, Concept.Label, NamePart;
    var i := FirstListing(concepts, iri);
    if i.None? {
      assert forall v :: v in concepts ==> !v.Lists(iri);
    }
  }

  /** The inner loop: an alias nobody has claimed yet goes to this label. */
  method RegisterAliases(start: map<string, string>, aliases: seq<string>, name: string)
    returns (m: map<string, string>)
    ensures forall iri :: iri in m <==> iri in start || iri in aliases
    ensures forall iri :: iri in m ==> m[iri] == if iri in start then start[iri] else name
  {
    m := start;
    for a := 0 to |aliases|
      invariant forall iri :: iri in m <==> iri in start || iri in aliases[..a]
      invariant forall iri :: iri in m ==> m[iri] == if iri in start then start[iri] else name
    {
      if aliases[a] !in m {
        m := m[aliases[a] := name];
      }
    }
  }

  lemma IriTableGrows(before: Tables, after: Tables, concepts: seq<Concept>)
    requires concepts != [] && IriPart(before, concepts[..|concepts| - 1])
    requires var v := concepts[|concepts| - 1];
             && (forall iri :: iri in after.iriToVerb <==> iri in before.iriToVerb || v.Lists(iri))
             && (forall iri :: iri in after.iriToVerb ==>
                   after.iriToVerb[iri] == if iri in before.iriToVerb then before.iriToVerb[iri] else v.Label())
    ensures IriPart(after, concepts)
  {
  }

  lemma NameTableGrows(before: Tables, after: Tables, concepts: seq<Concept>)
    requires concepts != [] && NamePart(before, concepts[..|concepts| - 1])
    requires var v := concepts[|concepts| - 1];
             after.verbToIri == if v.Label() in before.verbToIri then before.verbToIri
               else before.verbToIri[v.Label() := v.id]
    ensures NamePart(after, concepts)
  {
  }

  /** The module's loop over all concepts, and over the aliases of each. */
  method BuildTables(concepts: seq<Concept>) returns (t: Tables)
    ensures IsTableOf(t, concepts)
  {
    var iriToVerb: map<string, string>, verbToIri: map<string, string> := map[], map[];
    for n := 0 to |concepts|
      invariant IsTableOf(Tables(iriToVerb, verbToIri), concepts[..n])
    {
      ghost var before := Tables(iriToVerb, verbToIri);
      var v := concepts[n];
      var name := v.Label();
      if name !in verbToIri {
        verbToIri := verbToIri[name := v.id];
      }
      if v.id !in iriToVerb {
        iriToVerb := iriToVerb[v.id := name];
      }
      var aliases := v.Aliases();
      iriToVerb := RegisterAliases(iriToVerb, aliases, name);
      assert concepts[..n + 1][..n] == concepts[..n];
      IriTableGrows(before, Tables(iriToVerb, verbToIri), concepts[..n + 1]);
      NameTableGrows(before, Tables(iriToVerb, verbToIri), concepts[..n + 1]);
    }
    assert concepts[..|concepts|] == concepts;
    t := Tables(iriToVerb, verbToIri);
  }

  // ---------------------------------------------------------------------------------------
  // Looking verbs up
  // ---------------------------------------------------------------------------------------

  /** `verb_id_for_iri` */
  function VerbIdForIri(t: Tables, iri: string): Option<string> {
    if iri == "" then None
    else if iri in t.iriToVerb && t.iriToVerb[iri] != "" then Some(t.iriToVerb[iri])
    else if iri in t.verbToIri then Some(iri)
    else None
  }

  /** `iri_for_verb_id` */
  function IriForVerbId(t: Tables, verbId: string): Option<string> {
    if verbId == "" then None
    else if verbId in t.verbToIri && t.verbToIri[verbId] != "" then Some(t.verbToIri[verbId])
    else if verbId in t.iriToVerb then Some(verbId)
    else None
  }

  /** Every concept has an id and a label. */
  predicate Complete(concepts: seq<Concept>) {
    forall i :: 0 <= i < |concepts| ==> concepts[i].id != "" && concepts[i].Label() != ""
  }

  /** Both lookups know the same words: the IRIs and the labels of the concepts. Looking for a label, an
      IRI goes to that of the first concept listing it and a label to itself; looking for an IRI, a
      label goes to the id of its first concept and an IRI to itself. */
  lemma LookupsMean(t: Tables, concepts: seq<Concept>, x: string)
    requires IsTableOf(t, concepts) && Complete(concepts) && x != ""
    ensures VerbIdForIri(t, x).Some? <==> exists v :: v in concepts && (v.Lists(x) || v.Label() == x)
    ensures IriForVerbId(t, x).Some? <==> VerbIdForIri(t, x).Some?
    ensures forall i :: 0 <= i < |concepts| && concepts[i].Lists(x)
              && (forall j :: 0 <= j < i ==> !concepts[j].Lists(x))
              ==> VerbIdForIri(t, x) == Some(concepts[i].Label())
    ensures (forall v :: v in concepts ==> !v.Lists(x)) && VerbIdForIri(t, x).Some? ==> VerbIdForIri(t, x) == Some(x)
    ensures forall i :: 0 <= i < |concepts| && concepts[i].Label() == x
              && (forall j :: 0 <= j < i ==> concepts[j].Label() != x)
              ==> IriForVerbId(t, x) == Some(concepts[i].id)
    ensures (forall v :: v in concepts ==> v.Label() != x) && IriForVerbId(t, x).Some? ==> IriForVerbId(t, x) == Some(x)
  {
    hide Concept.Lists, Concept.Label;
    var (i, n) := (FirstListing(concepts, x), FirstLabelled(concepts, x));
    if i.None? && n.None? {
      assert forall v :: v in concepts ==> !v.Lists(x) && v.Label() != x;
    }
  }

  /** A label survives the way to its IRI and back exactly when no concept before its own lists
      that IRI. */
  lemma LabelRoundTripIff(t: Tables, concepts: seq<Concept>, name: string)
    requires IsTableOf(t, concepts) && Complete(concepts) && FirstLabelled(concepts, name).Some?
    ensures var own := FirstLabelled(concepts, name).value;
            var iri := IriForVerbId(t, name);
            && iri == Some(concepts[own].id)
            && (VerbIdForIri(t, iri.value) == Some(name) <==>
                 forall j :: 0 <= j < own ==> !concepts[j].Lists(concepts[own].id))
  {
    var own := FirstLabelled(concepts, name).value;
    var p := concepts[own].id;
    assert concepts[own].Lists(p) && p != "" && concepts[own].Label() == name != "";
    hide FirstListing, FirstLabelled, Concept.Label, Concept.Lists;
    var first := FirstListing(concepts, p).value;
    assert t.verbToIri[name] == p && t.iriToVerb[p] == concepts[first].Label();
    hide IsTableOf;
    if first >= own { assert first == own; }
  }

  /** A label whose IRI was claimed before it: it has that IRI, but the IRI has the label of the
      first concept that claims it. */
  lemma ShadowedLabel(t: Tables, concepts: seq<Concept>, i: nat, j: nat)
    requires IsTableOf(t, concepts) && Complete(concepts) && i < j < |concepts|
    requires concepts[i].Lists(concepts[j].id) && forall k :: 0 <= k < i ==> !concepts[k].Lists(concepts[j].id)
    requires forall k :: 0 <= k < j ==> concepts[k].Label() != concepts[j].Label()
    ensures IriForVerbId(t, concepts[j].Label()) == Some(concepts[j].id)
    ensures VerbIdForIri(t, concepts[j].id) == Some(concepts[i].Label()) != Some(concepts[j].Label())
  {
    hide Concept.Label, Concept.Lists;
    assert FirstLabelled(concepts, concepts[j].Label()) == Some(j);
    assert FirstListing(concepts, concepts[j].id) == Some(i);
    assert concepts[j].Label() in t.verbToIri && concepts[j].id in t.iriToVerb;
  }

  /** The entries of the shipped profile that lose a label: each lists the IRI of a later one. */
  predicate IsImported(v: Concept) {
    && v.prefLabel == "imported" && v.id == "https://ashecribb.dev/xapi/verbs/imported"
    && v.broadMatch == ["http://activitystrea.ms/schema/1.0/create"]
  }

  predicate IsReviewRequest(v: Concept) {
    && v.prefLabel == "requested-human-review" && v.id == "https://ashecribb.dev/xapi/verbs/requested-human-review"
    && v.broadMatch == ["http://adlnet.gov/expapi/verbs/asked"]
  }

  /** In every profile with the shipped entries "imported" and, behind it, "created", where nothing
      before claims their IRI or label, "created" comes back as "imported". */
  lemma CreatedDoesNotRoundTrip(t: Tables, concepts: seq<Concept>, i: nat, j: nat)
    requires IsTableOf(t, concepts) && Complete(concepts) && i < j < |concepts|
    requires IsImported(concepts[i]) && concepts[j].prefLabel == "created"
    requires concepts[j].id == "http://activitystrea.ms/schema/1.0/create"
    requires forall k :: 0 <= k < i ==> !concepts[k].Lists("http://activitystrea.ms/schema/1.0/create")
    requires forall k :: 0 <= k < j ==> concepts[k].Label() != "created"
    ensures IriForVerbId(t, "created").Some? && VerbIdForIri(t, IriForVerbId(t, "created").value) == Some("imported")
  {
    assert concepts[i].broadMatch[0] == concepts[j].id;
    assert concepts[i].Lists(concepts[j].id);
    assert concepts[i].Label() == "imported" && concepts[j].Label() == "created";
    hide *;
    ShadowedLabel(t, concepts, i, j);
  }

  /** So does "asked", as "requested-human-review". */
  lemma AskedDoesNotRoundTrip(t: Tables, concepts: seq<Concept>, i: nat, j: nat)
    requires IsTableOf(t, concepts) && Complete(concepts) && i < j < |concepts|
    requires IsReviewRequest(concepts[i]) && concepts[j].prefLabel == "asked"
    requires concepts[j].id == "http://adlnet.gov/expapi/verbs/asked"
    requires forall k :: 0 <= k < i ==> !concepts[k].Lists("http://adlnet.gov/expapi/verbs/asked")
    requires forall k :: 0 <= k < j ==> concepts[k].Label() != "asked"
    ensures IriForVerbId(t, "asked").Some?
    ensures VerbIdForIri(t, IriForVerbId(t, "asked").value) == Some("requested-human-review")
  {
    assert concepts[i].broadMatch[0] == concepts[j].id;
    assert concepts[i].Lists(concepts[j].id);
    assert concepts[i].Label() == "requested-human-review" && concepts[j].Label() == "asked";
    hide *;
    ShadowedLabel(t, concepts, i, j);
  }

  // ---------------------------------------------------------------------------------------
  // Actors and the validator
  // ---------------------------------------------------------------------------------------

  datatype Actor = Actor(kind: string, id: string, role: string)

  predicate MentionsAgent(id: string) {
    || Contains(id, "gate-agent") || Contains(id, "antigravity") || Contains(id, "bot")
    || Contains(id, "builder") || Contains(id, "harness") || Contains(id, "sandbox")
  }

  predicate IsHexKey(id: string) {
    |id| == 64 && forall i :: 0 <= i < 64 ==> '0' <= id[i] <= '9' || 'a' <= LowerChar(id[i]) <= 'f'
  }

  /** `isHumanActor` */
  predicate IsHumanActor(a: Actor) {
    var kind, id, role := ToLower(a.kind), ToLower(a.id), ToLower(a.role);
    if kind == "ai" || kind == "aiagent" || kind == "softwareagent" || MentionsAgent(id) then false
    else if kind == "human" || kind == "humanactor" || kind == "person" then true
    else if Contains(role, "supervisor") || Contains(role, "reviewer") || Contains(role, "human") then true
    else IsHexKey(a.id)
  }

  /** `isAIAgent` */
  predicate IsAIAgent(a: Actor) {
    var kind, id, role := ToLower(a.kind), ToLower(a.id), ToLower(a.role);
    || kind == "ai" || kind == "aiagent" || kind == "softwareagent" || kind == "agent" || kind == "system"
    || MentionsAgent(id)
    || Contains(role, "builder") || Contains(role, "agent") || Contains(role, "ai")
  }

  lemma {:induction false} LowerIs(s: string)
    requires forall c :: c in s ==> !('A' <= c <= 'Z')
    ensures ToLower(s) == s
  {
    if s == "" {
    } else {
      assert s == [s[0]] + s[1..] && s[0] in s;
      forall c | c in s[1..] ensures !('A' <= c <= 'Z') { assert c in s; }
      LowerIs(s[1..]);
    }
  }

  /** The two are not disjoint, although the ontology says so; the validator tests both. */
  lemma HumanAndAgentOverlap()
    ensures IsHumanActor(Actor("system", "", "supervisor")) && IsAIAgent(Actor("system", "", "supervisor"))
  {
    assert ToLower("") == "" && !MentionsAgent("");
    LowerIs("system");
    LowerIs("supervisor");
    assert "supervisor" <= "supervisor";
  }

  /** An actor is both exactly when nothing marks it as software outright, something in its kind or
      role speaks of an agent, and something in its kind, role or id speaks of a human. */
  lemma OverlapIff(a: Actor)
    ensures var kind, id, role := ToLower(a.kind), ToLower(a.id), ToLower(a.role);
            IsHumanActor(a) && IsAIAgent(a) <==>
              && kind !in ["ai", "aiagent", "softwareagent"] && !MentionsAgent(id)
              && (kind in ["agent", "system"] || exists w | w in ["builder", "agent", "ai"] :: Contains(role, w))
              && (kind in ["human", "humanactor", "person"] || IsHexKey(a.id)
                  || exists w | w in ["supervisor", "reviewer", "human"] :: Contains(role, w))
  {
    hide ToLower, MentionsAgent, Contains, IsHexKey;
    var role := ToLower(a.role);
    var agents, humans := ["builder", "agent", "ai"], ["supervisor", "reviewer", "human"];
    assert agents[0] in agents && agents[1] in agents && agents[2] in agents;
    assert humans[0] in humans && humans[1] in humans && humans[2] in humans;
  }

  const JUDGMENT_VERBS: set<string> := {"approved", "rejected", "reviewed", "ta-approved-draft", "accepted"}

  predicate IsJudgmentVerb(t: Tables, verb: string) {
    var id := VerbIdForIri(t, verb);
    id.Some? && id.value in JUDGMENT_VERBS
  }

  datatype RolePack = RolePack(allowedVerbs: set<string>, noCodePatches: bool, noJudgmentVerbs: bool)

  type RolePacks = map<string, RolePack>

  datatype Entry = Entry(actor: Actor, verb: string, role: string, patch: string, isReviewTask: bool)
  {
    /** `(role || actor?.role)?.toLowerCase().trim()` */
    function EffectiveRole(): string {
      Trim(ToLower(if role != "" then role else actor.role))
    }

    predicate HasPatch() {
      Trim(patch) != ""
    }
  }

  const FINDING_AND_REPORT_VERBS: set<string> := {
    "flagged-discrepancy", "flagged-hallucination", "verified-claim", "requested-human-review",
    "viewed", "searched", "exported-snapshot", "assigned", "planned"}

  predicate IsFindingOrReportVerb(t: Tables, verb: string) {
    var id := VerbIdForIri(t, verb);
    id.Some? && id.value in FINDING_AND_REPORT_VERBS
  }

  datatype Validity =
    | Accepted
    | UnknownVerb
    | JudgmentByAgent
    | JudgmentNotByHuman
    | AnswerByHuman
    | VerbNotAllowed
    | PatchNotAllowed
    | JudgmentNotAllowed
    | ReviewPatch
    | ReviewVerb

  function RoleCheck(t: Tables, pack: RolePack, role: string, verbId: string, hasPatch: bool): Validity {
    if verbId !in pack.allowedVerbs then VerbNotAllowed
    else if (pack.noCodePatches || role != "builder") && hasPatch then PatchNotAllowed
    else if pack.noJudgmentVerbs && IsJudgmentVerb(t, verbId) then JudgmentNotAllowed
    else if role == "budget" && hasPatch then PatchNotAllowed
    else Accepted
  }

  /** `validateTraceEntry` */
  function Validate(t: Tables, packs: RolePacks, e: Entry): Validity {
    var id := VerbIdForIri(t, e.verb);
    if id.None? then UnknownVerb
    else if IsJudgmentVerb(t, id.value) && IsAIAgent(e.actor) then JudgmentByAgent
    else if IsJudgmentVerb(t, id.value) && !IsHumanActor(e.actor) then JudgmentNotByHuman
    else if id.value == "ai-answered" && IsHumanActor(e.actor) then AnswerByHuman
    else
      var role := e.EffectiveRole();
      var byRole :=
        if role != "" && role in packs then RoleCheck(t, packs[role], role, id.value, e.HasPatch()) else Accepted;
      if byRole != Accepted then byRole
      else if e.isReviewTask && !IsHumanActor(e.actor) && e.HasPatch() then ReviewPatch
      else if e.isReviewTask && !IsHumanActor(e.actor) && !IsFindingOrReportVerb(t, id.value) then ReviewVerb
      else Accepted
  }

  ghost predicate ContainsOne(text: string, words: set<string>) {
    exists w :: w in words && Contains(text, w)
  }

  lemma OneMoreWord(text: string, words: set<string>, word: string)
    ensures ContainsOne(text, words + {word}) <==> ContainsOne(text, words) || Contains(text, word)
  {
    hide Contains;
    if Contains(text, word) { assert word in words + {word}; }
    if ContainsOne(text, words) {
      var w :| w in words && Contains(text, w);
      assert w in words + {word};
    }
  }

  lemma ThreeWords(text: string, a: string, b: string, c: string)
    ensures ContainsOne(text, {a, b, c}) <==> Contains(text, a) || Contains(text, b) || Contains(text, c)
  {
    hide Contains;
    OneMoreWord(text, {}, a);
    OneMoreWord(text, {a}, b);
    OneMoreWord(text, {a, b}, c);
    assert {} + {a} == {a} && {a} + {b} == {a, b} && {a, b} + {c} == {a, b, c};
  }

  lemma SixWords(text: string, a: string, b: string, c: string, d: string, e: string, f: string)
    ensures ContainsOne(text, {a, b, c, d, e, f}) <==>
              || Contains(text, a) || Contains(text, b) || Contains(text, c)
              || Contains(text, d) || Contains(text, e) || Contains(text, f)
  {
    hide Contains;
    ThreeWords(text, a, b, c);
    OneMoreWord(text, {a, b, c}, d);
    OneMoreWord(text, {a, b, c, d}, e);
    OneMoreWord(text, {a, b, c, d, e}, f);
    hide ContainsOne;
    assert {a, b, c} + {d} == {a, b, c, d} && {a, b, c, d} + {e} == {a, b, c, d, e};
    assert {a, b, c, d, e} + {f} == {a, b, c, d, e, f};
  }

  /** What makes an actor an AI agent, and what a human: the words, in any case, in its kind, id and
      role, or an id that is a key. Marks of an agent in kind or id rule a human out. */
  lemma ActorsMean(a: Actor)
    ensures var kind, id, role := ToLower(a.kind), ToLower(a.id), ToLower(a.role);
            var marked := ContainsOne(id, {"gate-agent", "antigravity", "bot", "builder", "harness", "sandbox"});
            && (IsAIAgent(a) <==>
                  || kind in {"ai", "aiagent", "softwareagent", "agent", "system"} || marked
                  || ContainsOne(role, {"builder", "agent", "ai"}))
            && (IsHumanActor(a) <==>
                  && kind !in {"ai", "aiagent", "softwareagent"} && !marked
                  && (kind in {"human", "humanactor", "person"}
                      || ContainsOne(role, {"supervisor", "reviewer", "human"})
                      || (|a.id| == 64
                          && forall i :: 0 <= i < 64 ==>
                               '0' <= a.id[i] <= '9' || 'a' <= LowerChar(a.id[i]) <= 'f')))
  {
    var id, role := ToLower(a.id), ToLower(a.role);
    SixWords(id, "gate-agent", "antigravity", "bot", "builder", "harness", "sandbox");
    ThreeWords(role, "builder", "agent", "ai");
    ThreeWords(role, "supervisor", "reviewer", "human");
    hide ToLower, Contains, LowerChar, ContainsOne;
  }

  /** What an accepted entry has to be, and all it has to be: of a known verb; for the five judgments,
      of a human who is no agent; for an AI's answer, of no human; within what its role may do, where
      patches are for builders; and in a review task, unless of a human, a finding or report
      without a patch. */
  lemma AcceptedMeans(t: Tables, packs: RolePacks, e: Entry)
    ensures Validate(t, packs, e) == Accepted <==>
              && VerbIdForIri(t, e.verb).Some?
              && var id := VerbIdForIri(t, e.verb).value;
                 var role := Trim(ToLower(if e.role != "" then e.role else e.actor.role));
                 var judges :=
                   VerbIdForIri(t, id).Some?
                   && VerbIdForIri(t, id).value in
                        ["approved", "rejected", "reviewed", "ta-approved-draft", "accepted"];
                 && (judges ==> !IsAIAgent(e.actor) && IsHumanActor(e.actor))
                 && (id == "ai-answered" ==> !IsHumanActor(e.actor))
                 && (role != "" && role in packs ==>
                       && id in packs[role].allowedVerbs
                       && (Trim(e.patch) != "" ==> role == "builder" && !packs[role].noCodePatches)
                       && !(packs[role].noJudgmentVerbs && judges))
                 && (e.isReviewTask && !IsHumanActor(e.actor) ==>
                       && Trim(e.patch) == ""
                       && VerbIdForIri(t, id).Some?
                       && VerbIdForIri(t, id).value in
                            ["flagged-discrepancy", "flagged-hallucination", "verified-claim", "requested-human-review",
                             "viewed", "searched", "exported-snapshot", "assigned", "planned"])
  {
    hide IsHumanActor, IsAIAgent, VerbIdForIri, Trim, ToLower;
  }

  /** A human whose role merely contains the letters "ai", say a maintainer, counts as an agent too,
      and is refused every judgment. */
  lemma AiInRoleMayNotJudge(t: Tables, packs: RolePacks, e: Entry)
    requires ToLower(e.actor.kind) == "human" && !MentionsAgent(ToLower(e.actor.id))
    requires Contains(ToLower(e.actor.role), "ai")
    requires var id := VerbIdForIri(t, e.verb); id.Some? && IsJudgmentVerb(t, id.value)
    ensures IsHumanActor(e.actor) && Validate(t, packs, e) == JudgmentByAgent
  {
    hide ToLower, Contains, MentionsAgent, IsJudgmentVerb, VerbIdForIri;
  }

  // ---------------------------------------------------------------------------------------
  // The trace
  // ---------------------------------------------------------------------------------------

  datatype TraceStep = TraceStep(index: nat, actor: Actor, verb: string, patch: string)

  /** The verb a step is stored with: `iri_for_verb_id(verb) || verb`. */
  function StoredVerb(t: Tables, verb: string): string {
    var iri := IriForVerbId(t, verb);
    if iri.Some? then iri.value else verb
  }

  /** `appendTraceStep`: an invalid entry is thrown out before anything is written. */
  function Append(t: Tables, packs: RolePacks, steps: seq<TraceStep>, e: Entry): seq<TraceStep> {
    if Validate(t, packs, e) != Accepted then steps
    else steps + [TraceStep(|steps| + 1, e.actor, StoredVerb(t, e.verb), e.patch)]
  }

  function AppendAll(t: Tables, packs: RolePacks, entries: seq<Entry>): seq<TraceStep>
    decreases |entries|
  {
    if entries == [] then []
    else Append(t, packs, AppendAll(t, packs, entries[..|entries| - 1]), entries[|entries| - 1])
  }

  /** Steps are numbered without gaps, and their verbs are known to the profile. */
  ghost predicate WellFormed(t: Tables, steps: seq<TraceStep>) {
    forall i :: 0 <= i < |steps| ==> steps[i].index == i + 1 && VerbIdForIri(t, steps[i].verb).Some?
  }

  lemma StoredVerbResolves(t: Tables, concepts: seq<Concept>, verb: string)
    requires IsTableOf(t, concepts) && Complete(concepts) && VerbIdForIri(t, verb).Some?
    ensures VerbIdForIri(t, StoredVerb(t, verb)).Some?
  {
    if verb in t.verbToIri {
      var own := FirstLabelled(concepts, verb).value;
      assert concepts[own].Lists(concepts[own].id);
      assert concepts[own].id in t.iriToVerb;
    }
  }

  lemma AcceptedIsKnown(t: Tables, packs: RolePacks, e: Entry)
    ensures Validate(t, packs, e) == Accepted ==> VerbIdForIri(t, e.verb).Some?
  {
    hide VerbIdForIri;
  }

  lemma AppendKeepsWellFormed(t: Tables, packs: RolePacks, concepts: seq<Concept>, steps: seq<TraceStep>, e: Entry)
    requires IsTableOf(t, concepts) && Complete(concepts) && WellFormed(t, steps)
    ensures WellFormed(t, Append(t, packs, steps, e))
  {
    hide VerbIdForIri, StoredVerb, IsTableOf, Complete, Validate;
    AcceptedIsKnown(t, packs, e);
    if Validate(t, packs, e) == Accepted {
      StoredVerbResolves(t, concepts, e.verb);
    }
  }

  /** Any run of appends, accepted or not, leaves a well-formed trace. */
  lemma {:induction false} TraceIsWellFormed(t: Tables, packs: RolePacks, concepts: seq<Concept>, entries: seq<Entry>)
    requires IsTableOf(t, concepts) && Complete(concepts)
    ensures WellFormed(t, AppendAll(t, packs, entries))
    decreases |entries|
  {
    if entries == [] {
    } else {
      hide WellFormed, IsTableOf, Complete, Append;
      TraceIsWellFormed(t, packs, concepts, entries[..|entries| - 1]);
      AppendKeepsWellFormed(t, packs, concepts, AppendAll(t, packs, entries[..|entries| - 1]), entries[|entries| - 1]);
    }
  }

  /** A label is stored as the id of its first concept, and anything else as it is. */
  lemma StoredVerbMeans(t: Tables, concepts: seq<Concept>, verb: string)
    requires IsTableOf(t, concepts) && Complete(concepts)
    ensures forall i :: 0 <= i < |concepts| && concepts[i].Label() == verb
              && (forall j :: 0 <= j < i ==> concepts[j].Label() != verb)
              ==> StoredVerb(t, verb) == concepts[i].id
    ensures (forall v :: v in concepts ==> v.Label() != verb) ==> StoredVerb(t, verb) == verb
  {
    if verb != "" { LookupsMean(t, concepts, verb); }
    hide Concept.Label, IsTableOf;
  }

  /** Over any run of appends every stored step stems from an entry that was accepted. */
  lemma {:induction false} StepsWereAccepted(t: Tables, packs: RolePacks, entries: seq<Entry>, i: nat)
    returns (e: Entry)
    requires i < |AppendAll(t, packs, entries)|
    ensures e in entries && Validate(t, packs, e) == Accepted
    ensures var step := AppendAll(t, packs, entries)[i];
            step.actor == e.actor && step.patch == e.patch && step.verb == StoredVerb(t, e.verb)
    decreases |entries|
  {
    hide Validate, StoredVerb;
    var init, last := entries[..|entries| - 1], entries[|entries| - 1];
    if i < |AppendAll(t, packs, init)| {
      e := StepsWereAccepted(t, packs, init, i);
    } else {
      e := last;
    }
  }

  /** So no trace has a patch by a role that is known and not the builder's, nor a patch by anyone but
      a human in a review task. */
  lemma PatchesAreBuilders(t: Tables, packs: RolePacks, entries: seq<Entry>, i: nat)
    requires i < |AppendAll(t, packs, entries)| && Trim(AppendAll(t, packs, entries)[i].patch) != ""
    ensures exists e :: e in entries
              && e.actor == AppendAll(t, packs, entries)[i].actor && e.patch == AppendAll(t, packs, entries)[i].patch
              && (var role := Trim(ToLower(if e.role != "" then e.role else e.actor.role));
                  role != "" && role in packs ==> role == "builder" && !packs[role].noCodePatches)
              && (e.isReviewTask ==> IsHumanActor(e.actor))
  {
    var e := StepsWereAccepted(t, packs, entries, i);
    AcceptedMeans(t, packs, e);
    hide AppendAll, Validate, IsHumanActor, IsAIAgent, Trim, ToLower, VerbIdForIri, StoredVerb;
  }

  /** A stored judgment is by a human who is no agent. */
  ghost predicate JudgmentsAreHuman(t: Tables, steps: seq<TraceStep>) {
    forall i :: 0 <= i < |steps| && IsJudgmentVerb(t, steps[i].verb) ==>
      IsHumanActor(steps[i].actor) && !IsAIAgent(steps[i].actor)
  }

  predicate IsKnownHarmless(t: Tables, verb: string) {
    var id := VerbIdForIri(t, verb);
    id.Some? && !IsJudgmentVerb(t, id.value)
  }

  /** Storing a verb under its primary IRI never turns it into a judgment: what the validator
      judged is what the trace will say. */
  ghost predicate KeepsJudgment(t: Tables) {
    forall verb :: IsKnownHarmless(t, verb) ==> !IsJudgmentVerb(t, StoredVerb(t, verb))
  }

  lemma {:induction false} SafeTablesKeepJudgmentsHuman(t: Tables, packs: RolePacks, entries: seq<Entry>)
    requires KeepsJudgment(t)
    ensures JudgmentsAreHuman(t, AppendAll(t, packs, entries))
    decreases |entries|
  {
    if entries == [] {
    } else {
      var e := entries[|entries| - 1];
      hide IsHumanActor, IsAIAgent, VerbIdForIri, StoredVerb;
      SafeTablesKeepJudgmentsHuman(t, packs, entries[..|entries| - 1]);
      if Validate(t, packs, e) == Accepted { assert IsKnownHarmless(t, e.verb) || IsHumanActor(e.actor); }
    }
  }

  /** An agent appending a harmless verb with no role and no patch is accepted. */
  lemma HarmlessIsAccepted(t: Tables, packs: RolePacks, verb: string)
    requires IsKnownHarmless(t, verb)
    ensures Validate(t, packs, Entry(Actor("ai", "", ""), verb, "", "", false)) == Accepted
    ensures IsAIAgent(Actor("ai", "", ""))
  {
    LowerIs("ai");
    var e := Entry(Actor("ai", "", ""), verb, "", "", false);
    assert e.EffectiveRole() == "" by { assert ToLower("") == "" && TrimStart("") == "" && TrimEnd("") == ""; }
  }

  lemma OneAppend(t: Tables, packs: RolePacks, e: Entry)
    requires Validate(t, packs, e) == Accepted
    ensures AppendAll(t, packs, [e]) == [TraceStep(1, e.actor, StoredVerb(t, e.verb), e.patch)]
  {
    hide Validate, StoredVerb;
    assert [e][..0] == [];
  }

  /** No run of appends ever stores a judgment by an AI agent exactly when the tables keep
      judgments: otherwise one append suffices. */
  lemma JudgmentsStayHumanIff(t: Tables, packs: RolePacks)
    ensures KeepsJudgment(t) <==> forall entries :: JudgmentsAreHuman(t, AppendAll(t, packs, entries))
  {
    if KeepsJudgment(t) {
      forall entries ensures JudgmentsAreHuman(t, AppendAll(t, packs, entries)) {
        SafeTablesKeepJudgmentsHuman(t, packs, entries);
      }
    } else {
      var verb :| IsKnownHarmless(t, verb) && IsJudgmentVerb(t, StoredVerb(t, verb));
      var e := Entry(Actor("ai", "", ""), verb, "", "", false);
      HarmlessIsAccepted(t, packs, verb);
      OneAppend(t, packs, e);
      var steps := AppendAll(t, packs, [e]);
      assert steps[0].actor == e.actor && IsJudgmentVerb(t, steps[0].verb);
      assert !JudgmentsAreHuman(t, steps);
    }
  }

  /** Tables keep judgments exactly when two checks over their entries succeed: a label that counts
      as no judgment has no IRI that does, and a judgment label given to a mere IRI still counts as
      one when it is looked up itself. */
  lemma EntriesDecideJudgment(t: Tables, concepts: seq<Concept>)
    requires IsTableOf(t, concepts) && Complete(concepts)
    ensures KeepsJudgment(t) <==>
              && (forall name :: name in t.verbToIri && IsKnownHarmless(t, name) ==>
                   !IsJudgmentVerb(t, t.verbToIri[name]))
              && (forall iri :: iri in t.iriToVerb && iri !in t.verbToIri && iri != "" ==>
                    (t.iriToVerb[iri] in JUDGMENT_VERBS ==> IsJudgmentVerb(t, t.iriToVerb[iri])))
  {
    forall name | name in t.verbToIri ensures StoredVerb(t, name) == t.verbToIri[name] {
      var own := FirstLabelled(concepts, name).value;
      assert concepts[own].id != "" && concepts[own].Label() != "";
    }
    forall iri | iri in t.iriToVerb && iri !in t.verbToIri && iri != ""
      ensures StoredVerb(t, iri) == iri && VerbIdForIri(t, iri) == Some(t.iriToVerb[iri])
    {
      assert concepts[FirstListing(concepts, iri).value].Label() != "";
    }
  }

  /** The trace of one task, appended to in place. */
  class TaskTrace {
    const tables: Tables
    const packs: RolePacks
    var steps: seq<TraceStep>

    constructor (tables: Tables, packs: RolePacks)
      ensures this.tables == tables && this.packs == packs && steps == []
    {
      this.tables, this.packs, steps := tables, packs, [];
    }

    method AppendTraceStep(e: Entry) returns (validity: Validity)
      modifies this
      ensures validity == Validate(tables, packs, e) && steps == Append(tables, packs, old(steps), e)
    {
      validity := Validate(tables, packs, e);
      if validity != Accepted { return; }
      var iri := IriForVerbId(tables, e.verb);
      var canonical := if iri.Some? then iri.value else e.verb;
      var index := |steps| + 1;
      steps := steps + [TraceStep(index, e.actor, canonical, e.patch)];
    }
  }
}
