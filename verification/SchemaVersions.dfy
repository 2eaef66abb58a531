/** Schema snapshots of a source: what counts as breaking, the version history, and the canonical form behind the schema hash. */
module SchemaVersions {
  import opened Marking
  import opened Prelude
  import opened Silver
  import Lex = Lexicographic

  predicate Stringy(t: string) {
    t == "string" || t == "text" || t == "varchar"
  }

  predicate Numeric(t: string) {
    t == "int" || t == "int32" || t == "int64" || t == "bigint" || t == "float" || t == "double" || t == "decimal"
  }

  /** For all its cases the rule comes down to this: any change of type counts as narrowing. */
  predicate IsTypeNarrowing(oldType: string, newType: string): (narrowing: bool)
    ensures narrowing <==> oldType != newType
  {
    if oldType == newType then false
    else if Stringy(oldType) != Stringy(newType) then true
    else if Numeric(oldType) && Numeric(newType) then true
    else true
  }

  /** The type the last field of that name has. */
  function LastType(fields: seq<SchemaField>, name: string): Option<string> {
    if fields == [] then None
    else if fields[|fields| - 1].name == name then Some(fields[|fields| - 1].typ)
    else LastType(fields[..|fields| - 1], name)
  }

  /** Every old field is found again, by name, with its type. */
  predicate Carries(newFields: seq<SchemaField>, oldFields: seq<SchemaField>) {
    forall i | 0 <= i < |oldFields| :: LastType(newFields, oldFields[i].name) == Some(oldFields[i].typ)
  }

  lemma LastTypeSnoc(fields: seq<SchemaField>, f: SchemaField, name: string)
    ensures LastType(fields + [f], name) == if f.name == name then Some(f.typ) else LastType(fields, name)
  {
    assert (fields + [f])[..|fields|] == fields;
  }

  /** IsBreakingSchemaChange: a name-to-type map of the new fields, against each old field. */
  method IsBreakingSchemaChange(oldFields: seq<SchemaField>, newFields: seq<SchemaField>) returns (breaking: bool)
    ensures breaking <==> !Carries(newFields, oldFields)
  {
    var newByName: map<string, string> := map[];
    for i := 0 to |newFields|
      invariant forall n :: n in newByName <==> LastType(newFields[..i], n).Some?
      invariant forall n :: n in newByName ==> LastType(newFields[..i], n) == Some(newByName[n])
    {
      assert newFields[..i + 1] == newFields[..i] + [newFields[i]];
      forall n
        ensures LastType(newFields[..i + 1], n) == if newFields[i].name == n then Some(newFields[i].typ) else LastType(newFields[..i], n)
      {
        LastTypeSnoc(newFields[..i], newFields[i], n);
      }
      newByName := newByName[newFields[i].name := newFields[i].typ];
    }
    assert newFields[..|newFields|] == newFields;
    for i := 0 to |oldFields|
      invariant forall k :: 0 <= k < i ==> LastType(newFields, oldFields[k].name) == Some(oldFields[k].typ)
    {
      if oldFields[i].name !in newByName {
        return true;
      }
      if IsTypeNarrowing(oldFields[i].typ, newByName[oldFields[i].name]) {
        return true;
      }
    }
    return false;
  }

  lemma {:induction false} LastTypeMember(fields: seq<SchemaField>, name: string, typ: string)
    requires LastType(fields, name) == Some(typ)
    ensures SchemaField(name, typ) in fields
  {
    if fields[|fields| - 1].name != name {
      LastTypeMember(fields[..|fields| - 1], name, typ);
    }
  }

  predicate NamesDecide(fields: seq<SchemaField>) {
    forall i, j :: 0 <= i < |fields| && 0 <= j < |fields| && fields[i].name == fields[j].name ==> fields[i] == fields[j]
  }

  lemma {:induction false} MemberLastType(fields: seq<SchemaField>, f: SchemaField)
    requires f in fields && NamesDecide(fields)
    ensures LastType(fields, f.name) == Some(f.typ)
  {
    var last := fields[|fields| - 1];
    if last.name == f.name {
      assert last == f;
    } else {
      var front := fields[..|fields| - 1];
      assert fields == front + [last];
      MemberLastType(front, f);
    }
  }

  /** A change that is not breaking keeps every (name, type) pair; where names decide types that is exactly what it means. */
  lemma CarriesKeeps(oldFields: seq<SchemaField>, newFields: seq<SchemaField>)
    ensures Carries(newFields, oldFields) ==> forall f :: f in oldFields ==> f in newFields
    ensures NamesDecide(newFields) ==> (Carries(newFields, oldFields) <==> forall f :: f in oldFields ==> f in newFields)
  {
    forall f | f in oldFields && Carries(newFields, oldFields)
      ensures f in newFields
    {
      var i :| 0 <= i < |oldFields| && oldFields[i] == f;
      LastTypeMember(newFields, f.name, f.typ);
    }
    if NamesDecide(newFields) && forall f :: f in oldFields ==> f in newFields {
      forall i | 0 <= i < |oldFields|
        ensures LastType(newFields, oldFields[i].name) == Some(oldFields[i].typ)
      {
        MemberLastType(newFields, oldFields[i]);
      }
    }
  }

  /** A schema is breaking against itself exactly when one of its names has two types. */
  lemma SelfBreaking(fields: seq<SchemaField>)
    ensures Carries(fields, fields) <==> NamesDecide(fields)
  {
    if Carries(fields, fields) {
      forall i, j | 0 <= i < |fields| && 0 <= j < |fields| && fields[i].name == fields[j].name
        ensures fields[i] == fields[j]
      {
        assert LastType(fields, fields[i].name) == Some(fields[i].typ);
        assert LastType(fields, fields[j].name) == Some(fields[j].typ);
      }
    } else if NamesDecide(fields) {
      CarriesKeeps(fields, fields);
      assert false;
    }
  }

  // ------------------------------------------------------------------ history

  /**
   * How a snapshot gets in and out of the schema_json column: `encode` is the text that
   * is written, `stored` the text the column gives back for it, and `decode` reads one.
   * A JSON column keeps the value of a text, not its spacing.
   */
  datatype Json = Json(encode: seq<SchemaField> -> string, stored: string -> string, decode: string -> seq<SchemaField>)

  /** Written or given back, a text decodes to the fields it was made of. */
  ghost predicate Faithful(j: Json) {
    forall fields :: j.decode(j.encode(fields)) == fields && j.decode(j.stored(j.encode(fields))) == fields
  }

  /** The column gives the text of these fields back as it was written. */
  predicate KeepsText(j: Json, fields: seq<SchemaField>) {
    j.stored(j.encode(fields)) == j.encode(fields)
  }

  /** A lakehouse_schema_versions row, with the text its column gives back. */
  datatype Version = Version(number: nat, text: string, breaking: bool)

  /** The history after one more snapshot that could be stored: its text is compared with the one the column gives back. */
  function Recorded(j: Json, history: seq<Version>, fields: seq<SchemaField>): seq<Version> {
    if history == [] then [Version(1, j.stored(j.encode(fields)), false)]
    else
      var latest := history[|history| - 1];
      if latest.text == j.encode(fields) then history
      else history + [Version(latest.number + 1, j.stored(j.encode(fields)), !Carries(fields, j.decode(latest.text)))]
  }

  /** The history that a sequence of snapshots builds. */
  function History(j: Json, snapshots: seq<seq<SchemaField>>): seq<Version> {
    if snapshots == [] then [] else Recorded(j, History(j, snapshots[..|snapshots| - 1]), snapshots[|snapshots| - 1])
  }

  /** Numbered from 1, with texts from the column, and flags that tell whether a version drops something of the one before. */
  predicate WellNumbered(j: Json, h: seq<Version>) {
    && (forall k :: 0 <= k < |h| ==> h[k].number == k + 1 && h[k].text == j.stored(j.encode(j.decode(h[k].text))))
    && (h != [] ==> !h[0].breaking)
    && (forall k :: 0 < k < |h| ==> h[k].breaking == !Carries(j.decode(h[k].text), j.decode(h[k - 1].text)))
  }

  predicate NeighboursDiffer(j: Json, h: seq<Version>) {
    forall k :: 0 < k < |h| ==> j.decode(h[k].text) != j.decode(h[k - 1].text)
  }

  /** The fields of the last version. */
  function Latest(j: Json, h: seq<Version>): seq<SchemaField>
    requires h != []
  {
    j.decode(h[|h| - 1].text)
  }

  lemma RecordedWellNumbered(j: Json, h: seq<Version>, fields: seq<SchemaField>)
    requires Faithful(j) && WellNumbered(j, h)
    ensures WellNumbered(j, Recorded(j, h, fields))
    ensures Recorded(j, h, fields) != [] && Latest(j, Recorded(j, h, fields)) == fields
  {
    var t := Recorded(j, h, fields);
    assert j.decode(j.encode(fields)) == fields && j.decode(j.stored(j.encode(fields))) == fields;
    forall k | 0 < k < |t|
      ensures t[k].breaking == !Carries(j.decode(t[k].text), j.decode(t[k - 1].text))
    {
      if k < |h| {
        assert t[k] == h[k] && t[k - 1] == h[k - 1];
      }
    }
  }

  /** Whatever the column does to the spacing, versions are 1..n with honest flags, and the last one is the last snapshot. */
  lemma {:induction false} HistoryWellNumbered(j: Json, snapshots: seq<seq<SchemaField>>)
    requires Faithful(j)
    ensures WellNumbered(j, History(j, snapshots))
    ensures snapshots != [] ==> History(j, snapshots) != [] && Latest(j, History(j, snapshots)) == snapshots[|snapshots| - 1]
  {
    if snapshots != [] {
      var front := snapshots[..|snapshots| - 1];
      HistoryWellNumbered(j, front);
      RecordedWellNumbered(j, History(j, front), snapshots[|snapshots| - 1]);
    }
  }

  /**
   * Recording the current schema again leaves the history alone if and only if the
   * column keeps its text. Otherwise it appends an equal version, and that version is
   * flagged breaking if and only if one of its names has two types.
   */
  lemma RepeatExactly(j: Json, h: seq<Version>, fields: seq<SchemaField>)
    requires Faithful(j) && WellNumbered(j, h) && h != [] && Latest(j, h) == fields
    ensures Recorded(j, h, fields) == h <==> KeepsText(j, fields)
    ensures !KeepsText(j, fields) ==> Recorded(j, h, fields) == h + [Version(|h| + 1, h[|h| - 1].text, !NamesDecide(fields))]
  {
    SelfBreaking(fields);
  }

  /** With a column that keeps every text, an appended version is a changed schema. */
  lemma {:induction false} NeighboursDifferThen(j: Json, snapshots: seq<seq<SchemaField>>)
    requires Faithful(j) && forall fields :: KeepsText(j, fields)
    ensures NeighboursDiffer(j, History(j, snapshots))
  {
    if snapshots != [] {
      var front, fields := snapshots[..|snapshots| - 1], snapshots[|snapshots| - 1];
      var h := History(j, front);
      NeighboursDifferThen(j, front);
      HistoryWellNumbered(j, front);
      if h != [] && Latest(j, h) == fields {
        RepeatExactly(j, h, fields);
        assert KeepsText(j, fields);
      } else {
        RecordedWellNumbered(j, h, fields);
      }
    }
  }

  lemma RecordTwice(j: Json, fields: seq<SchemaField>)
    requires Faithful(j) && !KeepsText(j, fields)
    ensures var text := j.stored(j.encode(fields));
      History(j, [fields, fields]) == [Version(1, text, false), Version(2, text, !NamesDecide(fields))]
  {
    var once, twice := [fields], [fields, fields];
    assert once[..0] == [] && twice[..1] == once;
    assert History(j, once) == [Version(1, j.stored(j.encode(fields)), false)];
    HistoryWellNumbered(j, once);
    RepeatExactly(j, History(j, once), fields);
    assert History(j, twice) == Recorded(j, History(j, once), fields);
  }

  /** Neighbouring versions are different schemas, in every history, if and only if the column gives every text back unchanged. */
  lemma NeighboursDifferExactly(j: Json)
    requires Faithful(j)
    ensures (forall snapshots :: NeighboursDiffer(j, History(j, snapshots))) <==> forall fields :: KeepsText(j, fields)
  {
    if forall fields :: KeepsText(j, fields) {
      forall snapshots
        ensures NeighboursDiffer(j, History(j, snapshots))
      {
        NeighboursDifferThen(j, snapshots);
      }
    } else {
      var fields :| !KeepsText(j, fields);
      RecordTwice(j, fields);
      var h := History(j, [fields, fields]);
      assert j.decode(h[1].text) == j.decode(h[0].text);
    }
  }

  const LINE_SCHEMA := [SchemaField("line", "string")]
  const COMPACT := "[{\"name\":\"line\",\"type\":\"string\"}]"
  const SPACED := "[{\"name\": \"line\", \"type\": \"string\"}]"

  /** The schema of every log source: written compactly and given back with spaces, it gets a new version each time it is recorded. */
  lemma LineTwice(j: Json)
    requires Faithful(j) && j.encode(LINE_SCHEMA) == COMPACT && j.stored(COMPACT) == SPACED
    ensures History(j, [LINE_SCHEMA, LINE_SCHEMA]) == [Version(1, SPACED, false), Version(2, SPACED, false)]
    ensures !NeighboursDiffer(j, History(j, [LINE_SCHEMA, LINE_SCHEMA]))
  {
    assert |COMPACT| != |SPACED|;
    assert !KeepsText(j, LINE_SCHEMA);
    assert NamesDecide(LINE_SCHEMA);
    RecordTwice(j, LINE_SCHEMA);
    var h := History(j, [LINE_SCHEMA, LINE_SCHEMA]);
    assert j.decode(h[1].text) == j.decode(h[0].text);
  }

  // Both kinds of column exist: one that keeps every text, and one that keeps none.

  function Listed(fields: seq<SchemaField>): string {
    if fields == [] then "" else Marked(fields[0].name) + (Marked(fields[0].typ) + Listed(fields[1..]))
  }

  lemma {:induction false} ListedInjective(f: seq<SchemaField>, g: seq<SchemaField>)
    requires Listed(f) == Listed(g)
    ensures f == g
  {
    if f != [] && g != [] {
      MarkedSplits(f[0].name, Marked(f[0].typ) + Listed(f[1..]), g[0].name, Marked(g[0].typ) + Listed(g[1..]));
      MarkedSplits(f[0].typ, Listed(f[1..]), g[0].typ, Listed(g[1..]));
      ListedInjective(f[1..], g[1..]);
      assert f == [f[0]] + f[1..] && g == [g[0]] + g[1..];
    }
  }

  ghost function Unlisted(text: string): seq<SchemaField> {
    if exists fields :: Listed(fields) == text then var fields :| Listed(fields) == text; fields else []
  }

  /** Reads a text with or without a space before it. */
  ghost function Read(text: string): seq<SchemaField> {
    Unlisted(if text != "" && text[0] == ' ' then text[1..] else text)
  }

  lemma ReadListed(fields: seq<SchemaField>)
    ensures Read(Listed(fields)) == fields && Read(" " + Listed(fields)) == fields
  {
    var text := Listed(fields);
    assert (" " + text)[1..] == text;
    assert text == "" || text[0] != ' ';
    ListedInjective(Unlisted(text), fields);
  }

  lemma BothColumnsExist() returns (keeps: Json, spaces: Json)
    ensures Faithful(keeps) && forall fields :: KeepsText(keeps, fields)
    ensures Faithful(spaces) && forall fields :: !KeepsText(spaces, fields)
  {
    keeps := Json(fields => Listed(fields), text => text, text => Read(text));
    spaces := Json(fields => Listed(fields), text => " " + text, text => Read(text));
    forall fields
      ensures keeps.decode(keeps.encode(fields)) == fields && keeps.decode(keeps.stored(keeps.encode(fields))) == fields
      ensures spaces.decode(spaces.encode(fields)) == fields && spaces.decode(spaces.stored(spaces.encode(fields))) == fields
    {
      ReadListed(fields);
    }
    forall fields
      ensures !KeepsText(spaces, fields)
    {
      assert |" " + Listed(fields)| != |Listed(fields)|;
    }
  }

  /** If no version after `i` up to `k` is flagged breaking, every field of version `i` is still there in version `k`. */
  lemma {:induction false} UnflaggedKeeps(j: Json, h: seq<Version>, i: nat, k: nat, f: SchemaField)
    requires WellNumbered(j, h) && i <= k < |h|
    requires forall l :: i < l <= k ==> !h[l].breaking
    requires f in j.decode(h[i].text)
    ensures f in j.decode(h[k].text)
  {
    if i < k {
      UnflaggedKeeps(j, h, i, k - 1, f);
      CarriesKeeps(j.decode(h[k - 1].text), j.decode(h[k].text));
    }
  }

  datatype RecordError = QueryFailed | InsertFailed | NotReadBack | SchemaBroken(version: Version)

  class Registry {
    const json: Json
    var histories: map<nat, seq<Version>>

    ghost predicate Valid()
      reads this
    {
      Faithful(json) && forall s :: s in histories ==> histories[s] != [] && WellNumbered(json, histories[s])
    }

    ghost function HistoryOf(source: nat): seq<Version>
      reads this
    {
      if source in histories then histories[source] else []
    }

    constructor (json: Json)
      requires Faithful(json)
      ensures Valid() && this.json == json && histories == map[]
    {
      this.json, histories := json, map[];
    }

    /** The INSERT of a new version. */
    method Insert(source: nat, version: Version)
      requires Valid() && WellNumbered(json, HistoryOf(source) + [version])
      modifies this
      ensures Valid() && HistoryOf(source) == old(HistoryOf(source)) + [version]
      ensures forall s :: s != source ==> HistoryOf(s) == old(HistoryOf(s))
    {
      if source in histories {
        histories := histories[source := histories[source] + [version]];
      } else {
        histories := histories[source := [version]];
      }
    }

    /**
     * RecordSchemaVersion: a schema whose text is the one the column gives back adds
     * nothing; a breaking one is stored and then reported. The row is read back in the
     * end, and that may fail.
     */
    method RecordSchemaVersion(source: nat, fields: seq<SchemaField>, queryOk: bool, insertOk: bool, readBack: bool) returns (r: Result<Version, RecordError>)
      requires Valid()
      modifies this
      ensures Valid()
      ensures forall s :: s != source ==> HistoryOf(s) == old(HistoryOf(s))
      ensures HistoryOf(source) == if queryOk && insertOk then Recorded(json, old(HistoryOf(source)), fields) else old(HistoryOf(source))
      ensures HistoryOf(source) == old(HistoryOf(source)) +
        if queryOk && insertOk && (old(HistoryOf(source)) == [] || old(HistoryOf(source))[|old(HistoryOf(source))| - 1].text != json.encode(fields))
        then [Version(|old(HistoryOf(source))| + 1, json.stored(json.encode(fields)),
                      old(HistoryOf(source)) != [] && !Carries(fields, Latest(json, old(HistoryOf(source)))))]
        else []
      ensures r.Ok? ==> HistoryOf(source) != [] && r.value == HistoryOf(source)[|HistoryOf(source)| - 1] && json.decode(r.value.text) == fields
      ensures !queryOk ==> r == Err(QueryFailed)
      ensures r == Err(InsertFailed) ==> queryOk && !insertOk && HistoryOf(source) == old(HistoryOf(source))
      ensures r.Err? && r.error.SchemaBroken? <==>
        queryOk && insertOk && readBack && HistoryOf(source) != old(HistoryOf(source)) && HistoryOf(source) != [] && HistoryOf(source)[|HistoryOf(source)| - 1].breaking
    {
      if !queryOk {
        return Err(QueryFailed);
      }
      var text := json.encode(fields);
      var latestVer, isBreaking := 0, false;
      RecordedWellNumbered(json, HistoryOf(source), fields);
      if source in histories {
        var latest := histories[source][|histories[source]| - 1];
        latestVer := latest.number;
        if latest.text == text {
          return if readBack then Ok(latest) else Err(NotReadBack);
        }
        isBreaking := IsBreakingSchemaChange(json.decode(latest.text), fields);
      }
      if !insertOk {
        return Err(InsertFailed);
      }
      var version := Version(latestVer + 1, json.stored(text), isBreaking);
      assert Recorded(json, HistoryOf(source), fields) == HistoryOf(source) + [version];
      Insert(source, version);
      if !readBack {
        return Err(NotReadBack);
      }
      if isBreaking {
        return Err(SchemaBroken(version));
      }
      return Ok(version);
    }
  }

  // ------------------------------------------------------------- canonical form

  /** What the hash is taken of: the fields sorted by name, by a sort that need not be stable. */
  ghost predicate IsCanonical(c: seq<SchemaField>, fields: seq<SchemaField>) {
    multiset(c) == multiset(fields) && forall i, j :: 0 <= i < j < |c| ==> !Lex.Less(c[j].name, c[i].name)
  }

  /** The last of a sorted order is not below any field of the same bag. */
  lemma LastIsGreatest(c: seq<SchemaField>, d: seq<SchemaField>)
    requires IsCanonical(c, d) && c != [] && d != []
    ensures !Lex.Less(c[|c| - 1].name, d[|d| - 1].name)
  {
    assert d[|d| - 1] in multiset(d);
    assert d[|d| - 1] in c;
    var i :| 0 <= i < |c| && c[i] == d[|d| - 1];
    Lex.Trichotomy(c[i].name, c[i].name);
  }

  lemma SameLast(c: seq<SchemaField>, d: seq<SchemaField>)
    requires IsCanonical(c, d) && IsCanonical(d, c) && NamesDecide(c) && c != [] && d != []
    ensures c[|c| - 1] == d[|d| - 1]
  {
    var x, y := c[|c| - 1], d[|d| - 1];
    LastIsGreatest(c, d);
    LastIsGreatest(d, c);
    Lex.Trichotomy(x.name, y.name);
    assert y in multiset(d);
    assert y in c;
  }

  lemma WithoutLast(c: seq<SchemaField>)
    requires c != []
    ensures multiset(c[..|c| - 1]) == multiset(c) - multiset{c[|c| - 1]}
  {
    assert c == c[..|c| - 1] + [c[|c| - 1]];
  }

  lemma FrontCanonical(c: seq<SchemaField>, d: seq<SchemaField>)
    requires IsCanonical(c, d) && c != [] && d != [] && c[|c| - 1] == d[|d| - 1]
    ensures IsCanonical(c[..|c| - 1], d[..|d| - 1])
  {
    WithoutLast(c);
    WithoutLast(d);
  }

  /** Two name-sorted orders of the same fields are the same when names decide. */
  lemma {:induction false} CanonicalUnique(c: seq<SchemaField>, d: seq<SchemaField>)
    requires IsCanonical(c, d) && IsCanonical(d, c) && NamesDecide(c)
    ensures c == d
  {
    assert |multiset(c)| == |c| && |multiset(d)| == |d|;
    if c != [] {
      SameLast(c, d);
      FrontCanonical(c, d);
      FrontCanonical(d, c);
      CanonicalUnique(c[..|c| - 1], d[..|d| - 1]);
      assert c == c[..|c| - 1] + [c[|c| - 1]] && d == d[..|d| - 1] + [d[|d| - 1]];
    }
  }

  /**
   * For two field lists in which names decide, the canonical forms are equal exactly
   * when the lists are permutations of each other.
   */
  lemma CanonicalFaithful(a: seq<SchemaField>, ca: seq<SchemaField>, b: seq<SchemaField>, cb: seq<SchemaField>)
    requires NamesDecide(a) && NamesDecide(b) && IsCanonical(ca, a) && IsCanonical(cb, b)
    ensures ca == cb <==> multiset(a) == multiset(b)
  {
    if multiset(a) == multiset(b) {
      forall i, j | 0 <= i < |ca| && 0 <= j < |ca| && ca[i].name == ca[j].name
        ensures ca[i] == ca[j]
      {
        assert ca[i] in multiset(ca) && ca[j] in multiset(ca);
        assert ca[i] in a && ca[j] in a;
      }
      CanonicalUnique(ca, cb);
    }
  }

  /** Where two fields share a name and differ, the unstable sort has more than one possible outcome, and so has the hash. */
  lemma CanonicalAmbiguous(c: seq<SchemaField>, fields: seq<SchemaField>, p: nat, q: nat) returns (d: seq<SchemaField>)
    requires IsCanonical(c, fields) && p < q < |c| && c[p].name == c[q].name && c[p] != c[q]
    ensures IsCanonical(d, fields) && d != c
  {
    d := c[p := c[q]][q := c[p]];
    assert d[p] == c[q];
    assert forall k :: 0 <= k < |c| ==> d[k].name == c[k].name;
    assert multiset(d) == multiset(c);
  }
}
