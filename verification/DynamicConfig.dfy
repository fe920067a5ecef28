/**
 Runtime configuration held twice: the effective sections in memory, and the overrides in the
 `settings` table, over the sections of the configuration file. JSON decoding and the sections'
 validators are parameters.
 */
module DynamicConfig {
  import opened Options

  datatype Section = Email | Logging | Reminders | Audit | Holds

  const ALL_SECTIONS: seq<Section> := [Email, Logging, Reminders, Audit, Holds]

  function Key(s: Section): string {
    match s
    case Email => "email"
    case Logging => "logging"
    case Reminders => "reminders"
    case Audit => "audit"
    case Holds => "holds"
  }

  function TryFromKey(key: string): Option<Section> {
    if key == "email" then Some(Email)
    else if key == "logging" then Some(Logging)
    else if key == "reminders" then Some(Reminders)
    else if key == "audit" then Some(Audit)
    else if key == "holds" then Some(Holds)
    else None
  }

  /** Keys and sections correspond one to one. */
  lemma {:induction false} KeysAreExact(key: string, s: Section)
    ensures TryFromKey(Key(s)) == Some(s)
    ensures TryFromKey(key) == Some(s) <==> key == Key(s)
    ensures TryFromKey("email") == Some(Email) && TryFromKey("logging") == Some(Logging)
    ensures TryFromKey("reminders") == Some(Reminders) && TryFromKey("audit") == Some(Audit)
    ensures TryFromKey("holds") == Some(Holds)
  {
    assert Key(Email)[0] == 'e' && Key(Logging)[0] == 'l' && Key(Reminders)[0] == 'r'
        && Key(Audit)[0] == 'a' && Key(Holds)[0] == 'h';
  }

  lemma SectionOfKey(key: string)
    ensures TryFromKey(key).None? ==> forall s :: key != Key(s)
    ensures forall s :: key == Key(s) <==> TryFromKey(key) == Some(s)
  {
    forall s ensures TryFromKey(key) == Some(s) <==> key == Key(s) {
      KeysAreExact(key, s);
    }
  }

  /** A section as decoded from the file or from JSON; its flag is part of its contents. */
  datatype SectionConfig<S> = SectionConfig(overridable: bool, contents: S)

  /** The overridable part of the application's configuration. */
  datatype AppConfig<S> = AppConfig(
    email: SectionConfig<S>, logging: SectionConfig<S>, reminders: SectionConfig<S>,
    audit: SectionConfig<S>, holds: SectionConfig<S>)
  {
    function Get(s: Section): SectionConfig<S> {
      match s
      case Email => email
      case Logging => logging
      case Reminders => reminders
      case Audit => audit
      case Holds => holds
    }

    function Put(s: Section, v: SectionConfig<S>): AppConfig<S> {
      match s
      case Email => this.(email := v)
      case Logging => this.(logging := v)
      case Reminders => this.(reminders := v)
      case Audit => this.(audit := v)
      case Holds => this.(holds := v)
    }
  }

  /** The sections are the fields of the configuration. */
  lemma SectionsAreFields<S>(c: AppConfig<S>, v: SectionConfig<S>)
    ensures c.Get(Email) == c.email && c.Get(Logging) == c.logging && c.Get(Reminders) == c.reminders
         && c.Get(Audit) == c.audit && c.Get(Holds) == c.holds
    ensures c.Put(Email, v) == c.(email := v) && c.Put(Logging, v) == c.(logging := v)
         && c.Put(Reminders, v) == c.(reminders := v) && c.Put(Audit, v) == c.(audit := v)
         && c.Put(Holds, v) == c.(holds := v)
  {
  }

  predicate Overridable<S>(s: Section, c: AppConfig<S>) {
    c.Get(s).overridable
  }

  /** The section types: how JSON decodes into each of them, and what each validator accepts. */
  datatype Rules<!J, !S> = Rules(
    decode: (Section, J) -> Option<SectionConfig<S>>,
    valid: (Section, SectionConfig<S>) -> bool)

  // ── Effective configuration ────────────────────────────────────────────────

  /** What a section is under a file and a set of stored overrides. */
  function EffectiveSection<J, S>(rules: Rules<J, S>, file: AppConfig<S>, settings: map<string, J>, s: Section)
    : SectionConfig<S>
  {
    if Overridable(s, file) && Key(s) in settings && rules.decode(s, settings[Key(s)]).Some? then
      rules.decode(s, settings[Key(s)]).value
    else file.Get(s)
  }

  function Effective<J, S>(rules: Rules<J, S>, file: AppConfig<S>, settings: map<string, J>): AppConfig<S> {
    AppConfig(
      EffectiveSection(rules, file, settings, Email), EffectiveSection(rules, file, settings, Logging),
      EffectiveSection(rules, file, settings, Reminders), EffectiveSection(rules, file, settings, Audit),
      EffectiveSection(rules, file, settings, Holds))
  }

  lemma EffectiveGet<J, S>(rules: Rules<J, S>, file: AppConfig<S>, settings: map<string, J>)
    ensures forall s :: Effective(rules, file, settings).Get(s) == EffectiveSection(rules, file, settings, s)
  {
  }

  lemma SameSections<S>(a: AppConfig<S>, b: AppConfig<S>)
    requires forall s :: a.Get(s) == b.Get(s)
    ensures a == b
  {
    assert a.Get(Email) == b.Get(Email) && a.Get(Logging) == b.Get(Logging)
        && a.Get(Reminders) == b.Get(Reminders) && a.Get(Audit) == b.Get(Audit) && a.Get(Holds) == b.Get(Holds);
  }

  /** A stored row takes effect: it names a section that the file releases, and decodes. */
  predicate Applies<J, S>(rules: Rules<J, S>, file: AppConfig<S>, key: string, value: J) {
    match TryFromKey(key)
    case None => false
    case Some(s) => Overridable(s, file) && rules.decode(s, value).Some?
  }

  ghost predicate DistinctKeys<J>(rows: seq<(string, J)>) {
    forall i, j :: 0 <= i < j < |rows| ==> rows[i].0 != rows[j].0
  }

  function TableOf<J>(rows: seq<(string, J)>): map<string, J> {
    if rows == [] then map[]
    else TableOf(rows[..|rows| - 1])[rows[|rows| - 1].0 := rows[|rows| - 1].1]
  }

  lemma {:induction false} TableMembers<J>(rows: seq<(string, J)>, key: string)
    ensures key in TableOf(rows) <==> exists i :: 0 <= i < |rows| && rows[i].0 == key
  {
    if rows != [] {
      var n := |rows| - 1;
      TableMembers(rows[..n], key);
      assert forall i :: 0 <= i < n ==> rows[..n][i] == rows[i];
    }
  }

  /**
   The loading loop: stored rows are applied one after the other to the file's configuration.
   With distinct keys, as the table guarantees, the outcome is the effective configuration, so
   the order of the rows does not matter.
   */
  method LoadWithDbOverrides<J, S>(rules: Rules<J, S>, file: AppConfig<S>, rows: seq<(string, J)>)
    returns (effective: AppConfig<S>, applied: seq<string>)
    requires DistinctKeys(rows)
    ensures effective == Effective(rules, file, TableOf(rows))
    ensures forall k :: k in applied <==> k in TableOf(rows) && Applies(rules, file, k, TableOf(rows)[k])
  {
    effective, applied := file, [];
    for i := 0 to |rows|
      invariant effective == Effective(rules, file, TableOf(rows[..i]))
      invariant forall k :: k in applied <==> k in TableOf(rows[..i]) && Applies(rules, file, k, TableOf(rows[..i])[k])
    {
      var (key, value) := rows[i];
      RowApplied(rules, file, rows, i);
      match TryFromKey(key) {
        case None =>
        case Some(section) =>
          if Overridable(section, effective) {
            match rules.decode(section, value) {
              case None =>
              case Some(v) =>
                effective := effective.Put(section, v);
                applied := applied + [key];
            }
          }
      }
    }
    assert rows[..|rows|] == rows;
  }

  lemma RowApplied<J, S>(rules: Rules<J, S>, file: AppConfig<S>, rows: seq<(string, J)>, i: nat)
    requires DistinctKeys(rows) && i < |rows|
    ensures TableOf(rows[..i + 1]) == TableOf(rows[..i])[rows[i].0 := rows[i].1]
    ensures rows[i].0 !in TableOf(rows[..i])
    ensures forall s :: TryFromKey(rows[i].0) == Some(s) ==>
              (Overridable(s, Effective(rules, file, TableOf(rows[..i]))) <==> Overridable(s, file))
    ensures var before := Effective(rules, file, TableOf(rows[..i]));
      var after := Effective(rules, file, TableOf(rows[..i + 1]));
      match TryFromKey(rows[i].0)
      case None => after == before
      case Some(s) =>
        if Overridable(s, before) && rules.decode(s, rows[i].1).Some? then
          after == before.Put(s, rules.decode(s, rows[i].1).value)
        else after == before
  {
    var (key, value) := rows[i];
    assert rows[..i + 1][..i] == rows[..i];
    TableMembers(rows[..i], key);
    assert forall j :: 0 <= j < i ==> rows[..i][j] == rows[j];
    StoredOverride(rules, file, TableOf(rows[..i]), key, value);
  }

  /** The effect of one new stored row on the effective configuration. */
  lemma StoredOverride<J, S>(rules: Rules<J, S>, file: AppConfig<S>, settings: map<string, J>, key: string, value: J)
    ensures var before := Effective(rules, file, settings);
      var after := Effective(rules, file, settings[key := value]);
      match TryFromKey(key)
      case None => after == before
      case Some(s) =>
        && (Overridable(s, file) && rules.decode(s, value).Some? ==>
              after == before.Put(s, rules.decode(s, value).value))
        && (key !in settings && !(Overridable(s, file) && rules.decode(s, value).Some?) ==> after == before)
        && (key !in settings ==> (Overridable(s, before) <==> Overridable(s, file)))
  {
    var before, after := Effective(rules, file, settings), Effective(rules, file, settings[key := value]);
    EffectiveGet(rules, file, settings);
    EffectiveGet(rules, file, settings[key := value]);
    forall s ensures TryFromKey(key) == Some(s) <==> key == Key(s) {
      KeysAreExact(key, s);
    }
    forall s | key != Key(s) ensures after.Get(s) == before.Get(s) {
    }
    match TryFromKey(key)
    case None =>
      SameSections(after, before);
    case Some(s) =>
      if Overridable(s, file) && rules.decode(s, value).Some? {
        PutGet(before, s, rules.decode(s, value).value);
        SameSections(after, before.Put(s, rules.decode(s, value).value));
      } else if key !in settings {
        SameSections(after, before);
      }
  }

  lemma PutGet<S>(c: AppConfig<S>, s: Section, v: SectionConfig<S>)
    ensures forall t :: c.Put(s, v).Get(t) == if t == s then v else c.Get(t)
  {
  }

  // ── Operations on memory and table ─────────────────────────────────────────

  /** Memory, file and table. */
  datatype State<J, S> = State(inner: AppConfig<S>, file: AppConfig<S>, settings: map<string, J>)

  /** `update_section`: what is checked before memory changes. */
  function Checked<J, S>(rules: Rules<J, S>, file: AppConfig<S>, key: string, value: J)
    : Result<(Section, SectionConfig<S>)>
  {
    match TryFromKey(key)
    case None => Err(NotFound)
    case Some(s) =>
      if !Overridable(s, file) then Err(Authorization)
      else
        match rules.decode(s, value)
        case None => Err(BadRequest)
        case Some(v) => if rules.valid(s, v) then Ok((s, v)) else Err(BadRequest)
  }

  /** `update_config_section`: memory first, then the table. */
  function Updated<J, S>(rules: Rules<J, S>, st: State<J, S>, key: string, value: J, persists: bool)
    : (State<J, S>, Result<SectionConfig<S>>)
  {
    match Checked(rules, st.file, key, value)
    case Err(e) => (st, Err(e))
    case Ok((s, v)) =>
      var memory := st.(inner := st.inner.Put(s, v));
      if persists then (memory.(settings := st.settings[key := value]), Ok(v)) else (memory, Err(Internal))
  }

  /** `reset_config_section`: memory first, then the table. */
  function WasReset<J, S>(st: State<J, S>, key: string, persists: bool): (State<J, S>, Result<SectionConfig<S>>) {
    match TryFromKey(key)
    case None => (st, Err(NotFound))
    case Some(s) =>
      if !Overridable(s, st.file) then (st, Err(Authorization))
      else
        var memory := st.(inner := st.inner.Put(s, st.file.Get(s)));
        if persists then (memory.(settings := st.settings - {key}), Ok(st.file.Get(s))) else (memory, Err(Internal))
  }

  /** A restart, possibly with another file; a table that cannot be read counts as empty. */
  function Restarted<J, S>(rules: Rules<J, S>, st: State<J, S>, file: AppConfig<S>, readable: bool): State<J, S> {
    State(Effective(rules, file, if readable then st.settings else map[]), file, st.settings)
  }

  datatype SectionInfo<S> = SectionInfo(section: Section, value: SectionConfig<S>, overridden: bool)

  /** The server's configuration handlers over their two stores. */
  class ConfigServer<J, S> {
    const rules: Rules<J, S>
    var inner: AppConfig<S>
    var file: AppConfig<S>
    var settings: map<string, J>

    function Abstract(): State<J, S>
      reads this
    {
      State(inner, file, settings)
    }

    constructor (rules: Rules<J, S>, file: AppConfig<S>, rows: seq<(string, J)>)
      requires DistinctKeys(rows)
      ensures this.rules == rules
      ensures Abstract() == State(Effective(rules, file, TableOf(rows)), file, TableOf(rows))
    {
      this.rules := rules;
      this.file := file;
      this.settings := TableOf(rows);
      var effective, _ := LoadWithDbOverrides(rules, file, rows);
      this.inner := effective;
    }

    method UpdateConfigSection(key: string, value: J, persists: bool) returns (result: Result<SectionConfig<S>>)
      modifies this
      ensures (Abstract(), result) == Updated(rules, old(Abstract()), key, value, persists)
      ensures UpdateAnswered(rules, old(file), key, value, persists, result)
      ensures result.Err? && result != Err(Internal) ==> Abstract() == old(Abstract())
      ensures file == old(file) && settings == if result.Ok? then old(settings)[key := value] else old(settings)
    {
      var section := TryFromKey(key);
      SectionOfKey(key);
      assert section.Some? ==> key == Key(section.value);
      if section.None? {
        return Err(NotFound);
      }
      if !Overridable(section.value, file) {
        return Err(Authorization);
      }
      var decoded := rules.decode(section.value, value);
      if decoded.None? || !rules.valid(section.value, decoded.value) {
        return Err(BadRequest);
      }
      inner := inner.Put(section.value, decoded.value);
      if !persists {
        return Err(Internal);
      }
      settings := settings[key := value];
      return Ok(decoded.value);
    }

    method ResetConfigSection(key: string, persists: bool) returns (result: Result<SectionConfig<S>>)
      modifies this
      ensures (Abstract(), result) == WasReset(old(Abstract()), key, persists)
      ensures ResetAnswered(old(file), key, persists, result)
      ensures result.Err? && result != Err(Internal) ==> Abstract() == old(Abstract())
      ensures file == old(file) && settings == if result.Ok? then old(settings) - {key} else old(settings)
    {
      var section := TryFromKey(key);
      SectionOfKey(key);
      assert section.Some? ==> key == Key(section.value);
      if section.None? {
        return Err(NotFound);
      }
      if !Overridable(section.value, file) {
        return Err(Authorization);
      }
      inner := inner.Put(section.value, file.Get(section.value));
      if !persists {
        return Err(Internal);
      }
      settings := settings - {key};
      return Ok(file.Get(section.value));
    }

    /** The rows of the table arrive in any order. */
    method Restart(newFile: AppConfig<S>, rows: seq<(string, J)>, readable: bool)
      requires DistinctKeys(rows) && TableOf(rows) == settings
      modifies this
      ensures Abstract() == Restarted(rules, old(Abstract()), newFile, readable)
    {
      var effective, _ := LoadWithDbOverrides(rules, newFile, if readable then rows else []);
      inner, file := effective, newFile;
    }

    /** The overridable sections with their current values and whether a row is stored for them. */
    method GetConfig() returns (sections: seq<SectionInfo<S>>)
      ensures sections == Listed(Abstract(), ALL_SECTIONS)
      ensures forall info: SectionInfo<S> :: info in sections
                <==> && file.Get(info.section).overridable
                     && info.value == inner.Get(info.section)
                     && (info.overridden <==> Key(info.section) in settings)
      ensures forall i, j :: 0 <= i < j < |sections| ==> Rank(sections[i].section) < Rank(sections[j].section)
    {
      sections := ListSections(ALL_SECTIONS);
      AllListed(Abstract());
    }

    method ListSections(among: seq<Section>) returns (sections: seq<SectionInfo<S>>)
      ensures sections == Listed(Abstract(), among)
    {
      sections := [];
      for i := 0 to |among|
        invariant Listed(Abstract(), among) == sections + Listed(Abstract(), among[i..])
      {
        var s := among[i];
        assert among[i..][1..] == among[i + 1..];
        if Overridable(s, file) {
          sections := sections + [SectionInfo(s, inner.Get(s), Key(s) in settings)];
        }
      }
    }
  }

  function Listed<J, S>(st: State<J, S>, among: seq<Section>): seq<SectionInfo<S>> {
    if among == [] then []
    else
      (if Overridable(among[0], st.file) then
         [SectionInfo(among[0], st.inner.Get(among[0]), Key(among[0]) in st.settings)]
       else [])
      + Listed(st, among[1..])
  }

  /** The place of a section in the listing. */
  function Rank(s: Section): nat {
    match s
    case Email => 0
    case Logging => 1
    case Reminders => 2
    case Audit => 3
    case Holds => 4
  }

  /** Exactly the released ones among the sections are listed, as memory and table have them. */
  lemma {:induction false} ListedMembersIff<J, S>(st: State<J, S>, among: seq<Section>, info: SectionInfo<S>)
    ensures info in Listed(st, among)
      <==> && info.section in among && Overridable(info.section, st.file)
           && info.value == st.inner.Get(info.section)
           && (info.overridden <==> Key(info.section) in st.settings)
  {
    if among != [] {
      ListedMembersIff(st, among[1..], info);
      assert info.section in among <==> info.section == among[0] || info.section in among[1..];
    }
  }

  lemma {:induction false} ListedInOrder<J, S>(st: State<J, S>, among: seq<Section>)
    requires forall i, j :: 0 <= i < j < |among| ==> Rank(among[i]) < Rank(among[j])
    ensures var listed := Listed(st, among);
      forall i, j :: 0 <= i < j < |listed| ==> Rank(listed[i].section) < Rank(listed[j].section)
  {
    if among != [] {
      var s, rest := among[0], among[1..];
      var listed, later := Listed(st, among), Listed(st, rest);
      assert forall i :: 0 <= i < |rest| ==> rest[i] == among[i + 1];
      ListedInOrder(st, rest);
      forall i | 0 <= i < |later| ensures Rank(s) < Rank(later[i].section) {
        ListedMembersIff(st, rest, later[i]);
        assert later[i].section in rest;
      }
      if Overridable(s, st.file) {
        assert listed[0].section == s && listed[1..] == later;
        forall i, j | 0 <= i < j < |listed| ensures Rank(listed[i].section) < Rank(listed[j].section) {
          assert listed[j] == later[j - 1];
          if i > 0 {
            assert listed[i] == later[i - 1];
          }
        }
      }
    }
  }

  lemma AllListed<J, S>(st: State<J, S>)
    ensures forall info: SectionInfo<S> ::
              info in Listed(st, ALL_SECTIONS)
              <==> && st.file.Get(info.section).overridable
                   && info.value == st.inner.Get(info.section)
                   && (info.overridden <==> Key(info.section) in st.settings)
    ensures var listed := Listed(st, ALL_SECTIONS);
      forall i, j :: 0 <= i < j < |listed| ==> Rank(listed[i].section) < Rank(listed[j].section)
  {
    ListedInOrder(st, ALL_SECTIONS);
    forall s: Section ensures s in ALL_SECTIONS {
      assert s == ALL_SECTIONS[Rank(s)];
    }
    forall info: SectionInfo<S> ensures info in Listed(st, ALL_SECTIONS)
      <==> && st.file.Get(info.section).overridable
           && info.value == st.inner.Get(info.section)
           && (info.overridden <==> Key(info.section) in st.settings)
    {
      ListedMembersIff(st, ALL_SECTIONS, info);
    }
  }

  /** What an update answers: the first thing that is wrong with the request, else the new section. */
  ghost predicate UpdateAnswered<J, S>(rules: Rules<J, S>, file: AppConfig<S>, key: string, value: J, persists: bool,
                                       result: Result<SectionConfig<S>>) {
    && ((forall s :: key != Key(s)) ==> result == Err(NotFound))
    && forall s :: key == Key(s) ==>
         if !file.Get(s).overridable then result == Err(Authorization)
         else
           match rules.decode(s, value)
           case None => result == Err(BadRequest)
           case Some(v) =>
             if !rules.valid(s, v) then result == Err(BadRequest)
             else if persists then result == Ok(v)
             else result == Err(Internal)
  }

  ghost predicate ResetAnswered<S>(file: AppConfig<S>, key: string, persists: bool, result: Result<SectionConfig<S>>) {
    && ((forall s :: key != Key(s)) ==> result == Err(NotFound))
    && forall s :: key == Key(s) ==>
         if !file.Get(s).overridable then result == Err(Authorization)
         else if persists then result == Ok(file.Get(s))
         else result == Err(Internal)
  }

  // ── Coherence ──────────────────────────────────────────────────────────────

  /** Memory is what loading the file and the stored overrides would give. */
  ghost predicate Coherent<J, S>(rules: Rules<J, S>, st: State<J, S>) {
    st.inner == Effective(rules, st.file, st.settings)
  }

  /** Memory and table agree on every section but `s`. */
  ghost predicate CoherentBut<J, S>(rules: Rules<J, S>, st: State<J, S>, s: Section) {
    forall t :: t != s ==> st.inner.Get(t) == EffectiveSection(rules, st.file, st.settings, t)
  }

  lemma CoherentIsCoherentBut<J, S>(rules: Rules<J, S>, st: State<J, S>, s: Section)
    ensures Coherent(rules, st)
      <==> CoherentBut(rules, st, s) && st.inner.Get(s) == EffectiveSection(rules, st.file, st.settings, s)
  {
    EffectiveGet(rules, st.file, st.settings);
    if CoherentBut(rules, st, s) && st.inner.Get(s) == EffectiveSection(rules, st.file, st.settings, s) {
      SameSections(st.inner, Effective(rules, st.file, st.settings));
    }
  }

  lemma SettingsOfOtherSections<J, S>(rules: Rules<J, S>, file: AppConfig<S>, settings: map<string, J>,
                                      others: map<string, J>, s: Section)
    requires forall key :: key != Key(s) ==>
      (key in settings <==> key in others) && (key in settings ==> settings[key] == others[key])
    ensures forall t :: t != s ==>
      EffectiveSection(rules, file, settings, t) == EffectiveSection(rules, file, others, t)
  {
    forall t | t != s ensures Key(t) != Key(s) {
      KeysAreExact(Key(t), s);
      KeysAreExact(Key(t), t);
    }
  }

  /** A persisted update makes its section agree again, whatever it was before. */
  lemma PersistedUpdateRepairs<J, S>(rules: Rules<J, S>, st: State<J, S>, key: string, value: J, s: Section)
    requires TryFromKey(key) == Some(s) && CoherentBut(rules, st, s)
    requires Checked(rules, st.file, key, value).Ok?
    ensures Coherent(rules, Updated(rules, st, key, value, true).0)
  {
    var after := Updated(rules, st, key, value, true).0;
    KeysAreExact(key, s);
    SettingsOfOtherSections(rules, st.file, st.settings, after.settings, s);
    PutGet(st.inner, s, rules.decode(s, value).value);
    CoherentIsCoherentBut(rules, after, s);
  }

  lemma PersistedResetRepairs<J, S>(rules: Rules<J, S>, st: State<J, S>, key: string, s: Section)
    requires TryFromKey(key) == Some(s) && CoherentBut(rules, st, s) && Overridable(s, st.file)
    ensures Coherent(rules, WasReset(st, key, true).0)
  {
    var after := WasReset(st, key, true).0;
    KeysAreExact(key, s);
    SettingsOfOtherSections(rules, st.file, st.settings, after.settings, s);
    PutGet(st.inner, s, st.file.Get(s));
    CoherentIsCoherentBut(rules, after, s);
  }

  /**
   When the table cannot be written, memory has already changed: the two still agree exactly when
   the update did not change the section's value.
   */
  lemma {:induction false} FailedUpdateCoherentIffNoChange<J, S>(rules: Rules<J, S>, st: State<J, S>, key: string, value: J)
    requires Coherent(rules, st) && Checked(rules, st.file, key, value).Ok?
    ensures var (s, v) := Checked(rules, st.file, key, value).value;
      var after := Updated(rules, st, key, value, false).0;
      && CoherentBut(rules, after, s)
      && (Coherent(rules, after) <==> v == st.inner.Get(s))
  {
    var (s, v) := Checked(rules, st.file, key, value).value;
    PutGet(st.inner, s, v);
    CoherentIsCoherentBut(rules, st, s);
    CoherentIsCoherentBut(rules, Updated(rules, st, key, value, false).0, s);
  }

  lemma {:induction false} FailedResetCoherentIffNoChange<J, S>(rules: Rules<J, S>, st: State<J, S>, key: string, s: Section)
    requires Coherent(rules, st) && TryFromKey(key) == Some(s) && Overridable(s, st.file)
    ensures var after := WasReset(st, key, false).0;
      && CoherentBut(rules, after, s)
      && (Coherent(rules, after) <==> st.file.Get(s) == st.inner.Get(s))
  {
    PutGet(st.inner, s, st.file.Get(s));
    CoherentIsCoherentBut(rules, st, s);
    CoherentIsCoherentBut(rules, WasReset(st, key, false).0, s);
  }

  /** A start that could not read the table agrees with it exactly when no stored row would change the file. */
  lemma {:induction false} UnreadableStartCoherentIff<J, S>(rules: Rules<J, S>, st: State<J, S>, file: AppConfig<S>)
    ensures Coherent(rules, Restarted(rules, st, file, false))
      <==> forall s :: Overridable(s, file) && Key(s) in st.settings
                       && rules.decode(s, st.settings[Key(s)]).Some? ==>
                         rules.decode(s, st.settings[Key(s)]).value == file.Get(s)
  {
    EffectiveGet(rules, file, st.settings);
    EffectiveGet(rules, file, map[]);
    var loaded, full := Effective(rules, file, map[]), Effective(rules, file, st.settings);
    if forall s :: full.Get(s) == file.Get(s) {
      SameSections(loaded, full);
    }
  }

  // ── Runs ───────────────────────────────────────────────────────────────────

  /** `persists` and `readable` say whether the table could be written or read. */
  datatype Operation<J, S> =
    | UpdateOp(key: string, value: J, persists: bool)
    | ResetOp(key: string, persists: bool)
    | RestartOp(file: AppConfig<S>, readable: bool)

  /** The step on the table, if one is called for, succeeds. */
  predicate Landed<J, S>(op: Operation<J, S>) {
    match op
    case UpdateOp(_, _, persists) => persists
    case ResetOp(_, persists) => persists
    case RestartOp(_, readable) => readable
  }

  function Step<J, S>(rules: Rules<J, S>, st: State<J, S>, op: Operation<J, S>): State<J, S> {
    match op
    case UpdateOp(key, value, persists) => Updated(rules, st, key, value, persists).0
    case ResetOp(key, persists) => WasReset(st, key, persists).0
    case RestartOp(file, readable) => Restarted(rules, st, file, readable)
  }

  function Run<J, S>(rules: Rules<J, S>, st: State<J, S>, ops: seq<Operation<J, S>>): State<J, S> {
    if ops == [] then st else Step(rules, Run(rules, st, ops[..|ops| - 1]), ops[|ops| - 1])
  }

  /** The server's state after its first start over any table. */
  function Started<J, S>(rules: Rules<J, S>, file: AppConfig<S>, settings: map<string, J>): State<J, S> {
    State(Effective(rules, file, settings), file, settings)
  }

  lemma StepKeepsCoherence<J, S>(rules: Rules<J, S>, st: State<J, S>, op: Operation<J, S>)
    requires Coherent(rules, st) && Landed(op)
    ensures Coherent(rules, Step(rules, st, op))
  {
    match op
    case UpdateOp(key, value, _) =>
      if Checked(rules, st.file, key, value).Ok? {
        var s := Checked(rules, st.file, key, value).value.0;
        CoherentIsCoherentBut(rules, st, s);
        PersistedUpdateRepairs(rules, st, key, value, s);
      }
    case ResetOp(key, _) =>
      if TryFromKey(key).Some? && Overridable(TryFromKey(key).value, st.file) {
        CoherentIsCoherentBut(rules, st, TryFromKey(key).value);
        PersistedResetRepairs(rules, st, key, TryFromKey(key).value);
      }
    case RestartOp(_, _) =>
  }

  /**
   Over every run of accepted and rejected updates, resets and restarts in which the table can be
   written and read, from any table: memory is what a reload would give.
   */
  lemma {:induction false} AlwaysCoherent<J, S>(rules: Rules<J, S>, file: AppConfig<S>, settings: map<string, J>,
                                                ops: seq<Operation<J, S>>)
    requires forall i :: 0 <= i < |ops| ==> Landed(ops[i])
    ensures Coherent(rules, Run(rules, Started(rules, file, settings), ops))
  {
    if ops != [] {
      AlwaysCoherent(rules, file, settings, ops[..|ops| - 1]);
      StepKeepsCoherence(rules, Run(rules, Started(rules, file, settings), ops[..|ops| - 1]), ops[|ops| - 1]);
    }
  }

  /** Sections that the file does not release equal the file. */
  ghost predicate FixedSectionsKept<S>(inner: AppConfig<S>, file: AppConfig<S>) {
    forall s :: !Overridable(s, file) ==> inner.Get(s) == file.Get(s)
  }

  /** Over every run, whatever fails in it. */
  lemma {:induction false} FixedSectionsNeverChange<J, S>(rules: Rules<J, S>, file: AppConfig<S>,
                                                          settings: map<string, J>, ops: seq<Operation<J, S>>)
    ensures var st := Run(rules, Started(rules, file, settings), ops); FixedSectionsKept(st.inner, st.file)
  {
    if ops == [] {
      EffectiveGet(rules, file, settings);
    } else {
      FixedSectionsNeverChange(rules, file, settings, ops[..|ops| - 1]);
      StepKeepsFixed(rules, Run(rules, Started(rules, file, settings), ops[..|ops| - 1]), ops[|ops| - 1]);
    }
  }

  lemma StepKeepsFixed<J, S>(rules: Rules<J, S>, st: State<J, S>, op: Operation<J, S>)
    requires FixedSectionsKept(st.inner, st.file)
    ensures FixedSectionsKept(Step(rules, st, op).inner, Step(rules, st, op).file)
  {
    match op
    case UpdateOp(key, value, _) =>
      if Checked(rules, st.file, key, value).Ok? {
        var (s, v) := Checked(rules, st.file, key, value).value;
        PutGet(st.inner, s, v);
      }
    case ResetOp(key, _) =>
      if TryFromKey(key).Some? {
        PutGet(st.inner, TryFromKey(key).value, st.file.Get(TryFromKey(key).value));
      }
    case RestartOp(file, readable) =>
      EffectiveGet(rules, file, if readable then st.settings else map[]);
  }

  // ── Runs in which the table fails ──────────────────────────────────────────

  /** Memory and table agree on a section. */
  predicate Agrees<J, S(==)>(rules: Rules<J, S>, st: State<J, S>, s: Section) {
    st.inner.Get(s) == EffectiveSection(rules, st.file, st.settings, s)
  }

  /** The operation is accepted and concerns the section; a restart concerns them all. */
  predicate Touches<J, S>(rules: Rules<J, S>, st: State<J, S>, op: Operation<J, S>, s: Section) {
    match op
    case UpdateOp(key, value, _) => TryFromKey(key) == Some(s) && Checked(rules, st.file, key, value).Ok?
    case ResetOp(key, _) => TryFromKey(key) == Some(s) && Overridable(s, st.file)
    case RestartOp(_, _) => true
  }

  /** What an operation that fails on the table leaves in memory. */
  function LeftInMemory<J, S>(rules: Rules<J, S>, st: State<J, S>, op: Operation<J, S>, s: Section): SectionConfig<S>
    requires Touches(rules, st, op, s)
  {
    match op
    case UpdateOp(key, value, _) => Checked(rules, st.file, key, value).value.1
    case ResetOp(_, _) => st.file.Get(s)
    case RestartOp(file, _) => file.Get(s)
  }

  /** A change of one section and its row leaves the agreement on the others. */
  lemma OtherSectionsKept<J, S>(rules: Rules<J, S>, st: State<J, S>, after: State<J, S>, t: Section,
                                v: SectionConfig<S>, s: Section)
    requires t != s && after.inner == st.inner.Put(t, v) && after.file == st.file
    requires forall key :: key != Key(t) ==>
      (key in st.settings <==> key in after.settings)
      && (key in st.settings ==> st.settings[key] == after.settings[key])
    ensures Agrees(rules, after, s) <==> Agrees(rules, st, s)
  {
    PutGet(st.inner, t, v);
    SettingsOfOtherSections(rules, st.file, st.settings, after.settings, t);
  }

  lemma UntouchedSection<J, S>(rules: Rules<J, S>, st: State<J, S>, op: Operation<J, S>, s: Section)
    requires !Touches(rules, st, op, s)
    ensures Agrees(rules, Step(rules, st, op), s) <==> Agrees(rules, st, s)
  {
    var after := Step(rules, st, op);
    match op
    case UpdateOp(key, value, _) =>
      if Checked(rules, st.file, key, value).Ok? {
        var (t, v) := Checked(rules, st.file, key, value).value;
        KeysAreExact(key, t);
        OtherSectionsKept(rules, st, after, t, v, s);
      }
    case ResetOp(key, _) =>
      if TryFromKey(key).Some? && Overridable(TryFromKey(key).value, st.file) {
        var t := TryFromKey(key).value;
        KeysAreExact(key, t);
        OtherSectionsKept(rules, st, after, t, st.file.Get(t), s);
      }
    case RestartOp(_, _) =>
  }

  lemma TouchedSection<J, S>(rules: Rules<J, S>, st: State<J, S>, op: Operation<J, S>, s: Section)
    requires Touches(rules, st, op, s)
    ensures Agrees(rules, Step(rules, st, op), s)
      <==> Landed(op)
           || LeftInMemory(rules, st, op, s) == EffectiveSection(rules, Step(rules, st, op).file, st.settings, s)
  {
    match op
    case UpdateOp(key, value, _) =>
      KeysAreExact(key, s);
      PutGet(st.inner, s, Checked(rules, st.file, key, value).value.1);
    case ResetOp(key, _) =>
      KeysAreExact(key, s);
      PutGet(st.inner, s, st.file.Get(s));
    case RestartOp(file, readable) =>
      EffectiveGet(rules, file, if readable then st.settings else map[]);
  }

  /** The last operation of a run that concerns a section, or -1. */
  function LastTouch<J, S>(rules: Rules<J, S>, st: State<J, S>, ops: seq<Operation<J, S>>, s: Section): (n: int)
    ensures -1 <= n < |ops|
    ensures n >= 0 ==> Touches(rules, Run(rules, st, ops[..n]), ops[n], s)
  {
    if ops == [] then -1
    else
      var n := |ops| - 1;
      if Touches(rules, Run(rules, st, ops[..n]), ops[n], s) then n
      else
        var k := LastTouch(rules, st, ops[..n], s);
        assert k >= 0 ==> ops[..n][..k] == ops[..k];
        k
  }

  /**
   Over every run, whatever fails in it: memory and table agree on a section if and only if the
   last operation that concerned it reached the table, or left in memory what the table and the
   file give anyway.
   */
  lemma {:induction false} AgreesIffLastTouchLanded<J, S>(rules: Rules<J, S>, file: AppConfig<S>,
                                                          settings: map<string, J>, ops: seq<Operation<J, S>>,
                                                          s: Section)
    ensures var start := Started(rules, file, settings);
      var n := LastTouch(rules, start, ops, s);
      Agrees(rules, Run(rules, start, ops), s)
      <==> n == -1 || Landed(ops[n])
           || var before := Run(rules, start, ops[..n]);
              LeftInMemory(rules, before, ops[n], s)
              == EffectiveSection(rules, Step(rules, before, ops[n]).file, before.settings, s)
  {
    var start := Started(rules, file, settings);
    if ops == [] {
      EffectiveGet(rules, file, settings);
    } else {
      var n := |ops| - 1;
      var before := Run(rules, start, ops[..n]);
      if Touches(rules, before, ops[n], s) {
        TouchedSection(rules, before, ops[n], s);
      } else {
        UntouchedSection(rules, before, ops[n], s);
        AgreesIffLastTouchLanded(rules, file, settings, ops[..n], s);
        var k := LastTouch(rules, start, ops[..n], s);
        assert k >= 0 ==> ops[..n][..k] == ops[..k];
      }
    }
  }

  // ── Stored values ──────────────────────────────────────────────────────────

  /** Every stored row belongs to a section, decodes, and satisfies the section's validator. */
  ghost predicate StoredValid<J, S>(rules: Rules<J, S>, settings: map<string, J>) {
    forall key :: key in settings ==>
      && TryFromKey(key).Some?
      && rules.decode(TryFromKey(key).value, settings[key]).Some?
      && rules.valid(TryFromKey(key).value, rules.decode(TryFromKey(key).value, settings[key]).value)
  }

  /** Every section in memory is the file's or satisfies its validator. */
  ghost predicate MemoryValid<J, S>(rules: Rules<J, S>, st: State<J, S>) {
    forall s :: st.inner.Get(s) == st.file.Get(s) || rules.valid(s, st.inner.Get(s))
  }

  lemma StepKeepsMemoryValid<J, S>(rules: Rules<J, S>, st: State<J, S>, op: Operation<J, S>)
    requires StoredValid(rules, st.settings) && MemoryValid(rules, st)
    ensures MemoryValid(rules, Step(rules, st, op))
  {
    match op
    case UpdateOp(key, value, _) =>
      if Checked(rules, st.file, key, value).Ok? {
        var (s, v) := Checked(rules, st.file, key, value).value;
        PutGet(st.inner, s, v);
      }
    case ResetOp(key, _) =>
      if TryFromKey(key).Some? {
        PutGet(st.inner, TryFromKey(key).value, st.file.Get(TryFromKey(key).value));
      }
    case RestartOp(file, readable) =>
      LoadedIsValid(rules, file, if readable then st.settings else map[]);
  }

  lemma LoadedIsValid<J, S>(rules: Rules<J, S>, file: AppConfig<S>, settings: map<string, J>)
    requires StoredValid(rules, settings)
    ensures MemoryValid(rules, Started(rules, file, settings))
  {
    EffectiveGet(rules, file, settings);
    forall s ensures TryFromKey(Key(s)) == Some(s) {
      KeysAreExact(Key(s), s);
    }
  }

  /**
   Starting with an empty table, over every run, whatever fails in it: only validated values are
   ever stored, and memory holds the file's sections and validated values only.
   */
  lemma {:induction false} StoredAlwaysValid<J, S>(rules: Rules<J, S>, file: AppConfig<S>, ops: seq<Operation<J, S>>)
    ensures var st := Run(rules, Started(rules, file, map[]), ops);
      StoredValid(rules, st.settings) && MemoryValid(rules, st)
  {
    if ops == [] {
      LoadedIsValid(rules, file, map[]);
    } else {
      StoredAlwaysValid(rules, file, ops[..|ops| - 1]);
      StepKeepsMemoryValid(rules, Run(rules, Started(rules, file, map[]), ops[..|ops| - 1]), ops[|ops| - 1]);
    }
  }

  /**
   What the listing says: a section not flagged as overridden has the file's value, and, when all
   stored rows are valid, a flagged one has the stored value.
   */
  lemma ListingIsTruthful<J, S>(rules: Rules<J, S>, st: State<J, S>, info: SectionInfo<S>)
    requires Coherent(rules, st) && info in Listed(st, ALL_SECTIONS)
    ensures Overridable(info.section, st.file)
    ensures info.overridden <==> Key(info.section) in st.settings
    ensures !info.overridden ==> info.value == st.file.Get(info.section)
    ensures info.overridden && StoredValid(rules, st.settings) ==>
              rules.decode(info.section, st.settings[Key(info.section)]) == Some(info.value)
  {
    ListedMembersIff(st, ALL_SECTIONS, info);
    EffectiveGet(rules, st.file, st.settings);
    KeysAreExact(Key(info.section), info.section);
  }
}
