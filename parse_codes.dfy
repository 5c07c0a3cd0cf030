/** The classification stage: bus incident texts are mapped to incident
    categories through a fixed lookup, subway delay codes are classified by
    prefix, the subway delay rows are inner-joined with the classified code
    table, line names are normalised through a fixed alias table, the result
    is sorted by date and time, and the outputs are validated. */
module ParseCodes {
  import opened Tables

  const EquipmentMechanical := "Equipment/Mechanical"
  const Miscellaneous := "Miscellaneous"
  const OperatorIncident := "Operator"
  const SecuritySafety := "Security/Safety"

  /** The four incident categories. */
  const ValidIncidents: set<string> := {EquipmentMechanical, Miscellaneous, OperatorIncident, SecuritySafety}

  // ---------------------------------------------------------------------------
  // Bus incidents

  /** Incident text of the bus data -> incident category. */
  const BusIncidentMap: map<string, string> := map[
    "Diversion" := Miscellaneous,
    "Security" := SecuritySafety,
    "Cleaning - Unsanitary" := SecuritySafety,
    "Emergency Services" := SecuritySafety,
    "Collision - TTC" := OperatorIncident,
    "Mechanical" := EquipmentMechanical,
    "Operations - Operator" := OperatorIncident,
    "Investigation" := SecuritySafety,
    "Utilized Off Route" := Miscellaneous,
    "General Delay" := Miscellaneous,
    "Road Blocked - NON-TTC Collision" := Miscellaneous,
    "Held By" := Miscellaneous,
    "Vision" := SecuritySafety
  ]

  /** Every category the bus lookup produces is one of the four. */
  lemma BusIncidentMapValid()
    ensures forall t :: t in BusIncidentMap ==> BusIncidentMap[t] in ValidIncidents
  {
  }

  /** `series.map(bus_incident_map)` on one cell: a key yields its category, anything
      else (including a missing cell) yields a missing value. */
  function MapBusIncident(text: Option<string>): (r: Option<string>)
    ensures r.Some? <==> text.Some? && text.value in BusIncidentMap
    ensures r.Some? ==> r.value == BusIncidentMap[text.value] && r.value in ValidIncidents
  {
    BusIncidentMapValid();
    if text.Some? && text.value in BusIncidentMap then Some(BusIncidentMap[text.value]) else None
  }

  /** The bus table with its incident column replaced by the categories; nothing else
      about the rows changes. */
  function MapBusIncidents(rows: seq<BusDelay>): (r: seq<BusDelay>)
    ensures |r| == |rows|
    ensures forall i :: 0 <= i < |rows| ==>
      r[i] == rows[i].(incident := MapBusIncident(rows[i].incident))
  {
    seq(|rows|, i requires 0 <= i < |rows| => rows[i].(incident := MapBusIncident(rows[i].incident)))
  }

  // ---------------------------------------------------------------------------
  // Subway codes

  predicate StartsWith(s: string, prefix: string) {
    |prefix| <= |s| && s[..|prefix|] == prefix
  }

  /** `str(code)`: the text of a code cell; a missing cell prints as "nan". */
  function CodeText(code: Option<string>): string {
    match code
    case None => "nan"
    case Some(s) => s
  }

  /** The prefix rules for subway delay codes, first match wins. */
  function ClassifySubwayIncident(code: Option<string>): (r: string)
    ensures r in ValidIncidents
  {
    var s := CodeText(code);
    if StartsWith(s, "E") then EquipmentMechanical
    else if StartsWith(s, "MUI") || StartsWith(s, "MUS") || StartsWith(s, "MUP") then SecuritySafety
    else if StartsWith(s, "MUD") || StartsWith(s, "MUE") then EquipmentMechanical
    else if StartsWith(s, "P") then EquipmentMechanical
    else if StartsWith(s, "S") then SecuritySafety
    else if StartsWith(s, "T") then OperatorIncident
    else Miscellaneous
  }

  /** A prefix rule: codes starting with `prefix` belong to `category`. */
  datatype Rule = Rule(prefix: string, category: string)

  /** The classifier's rules in the order they are tried. */
  const SubwayRules: seq<Rule> := [
    Rule("E", EquipmentMechanical),
    Rule("MUI", SecuritySafety), Rule("MUS", SecuritySafety), Rule("MUP", SecuritySafety),
    Rule("MUD", EquipmentMechanical), Rule("MUE", EquipmentMechanical),
    Rule("P", EquipmentMechanical),
    Rule("S", SecuritySafety),
    Rule("T", OperatorIncident)
  ]

  /** The category of some rule that matches `s`, in no particular order; the fallback
      when none does. */
  ghost predicate AnyRuleGives(s: string, category: string) {
    (exists k :: 0 <= k < |SubwayRules| && StartsWith(s, SubwayRules[k].prefix) &&
       SubwayRules[k].category == category) ||
    ((forall k :: 0 <= k < |SubwayRules| ==> !StartsWith(s, SubwayRules[k].prefix)) &&
       category == Miscellaneous)
  }

  /** No code matches two rules, so the order of the rules does not matter: the
      classifier returns the category of whichever rule matches, Miscellaneous if none. */
  lemma ClassifyByAnyRule(code: Option<string>)
    ensures AnyRuleGives(CodeText(code), ClassifySubwayIncident(code))
    ensures forall c :: AnyRuleGives(CodeText(code), c) ==> c == ClassifySubwayIncident(code)
  {
    var s := CodeText(code);
    forall k | 0 <= k < |SubwayRules| && StartsWith(s, SubwayRules[k].prefix)
      ensures SubwayRules[k].category == ClassifySubwayIncident(code)
    {
      RuleMatch(s, k);
    }
    if exists k :: 0 <= k < |SubwayRules| && StartsWith(s, SubwayRules[k].prefix) {
    } else {
      assert !StartsWith(s, "E") by { assert SubwayRules[0].prefix == "E"; }
      assert !StartsWith(s, "MUI") by { assert SubwayRules[1].prefix == "MUI"; }
      assert !StartsWith(s, "MUS") by { assert SubwayRules[2].prefix == "MUS"; }
      assert !StartsWith(s, "MUP") by { assert SubwayRules[3].prefix == "MUP"; }
      assert !StartsWith(s, "MUD") by { assert SubwayRules[4].prefix == "MUD"; }
      assert !StartsWith(s, "MUE") by { assert SubwayRules[5].prefix == "MUE"; }
      assert !StartsWith(s, "P") by { assert SubwayRules[6].prefix == "P"; }
      assert !StartsWith(s, "S") by { assert SubwayRules[7].prefix == "S"; }
      assert !StartsWith(s, "T") by { assert SubwayRules[8].prefix == "T"; }
    }
  }

  /** A rule that matches gives the classifier's category. */
  lemma RuleMatch(s: string, k: nat)
    requires k < |SubwayRules| && StartsWith(s, SubwayRules[k].prefix)
    ensures SubwayRules[k].category == ClassifySubwayIncident(Some(s))
  {
    var p := SubwayRules[k].prefix;
    assert s[0] == p[0];
    if k == 0 {
      assert p == "E";
    } else if k <= 5 {
      assert s[0] == 'M' && s[1] == 'U' && s[2] == p[2];
      assert s[..3] == p;
    } else {
      assert |p| == 1 && s[0] != 'E' && s[0] != 'M';
    }
  }

  /** Codes that start with "M" but with none of the five "MU" prefixes, the empty code
      and a missing code all fall through to Miscellaneous. */
  lemma ClassifyFallThrough(code: Option<string>)
    ensures var s := CodeText(code);
      (StartsWith(s, "M") && !StartsWith(s, "MUI") && !StartsWith(s, "MUS") && !StartsWith(s, "MUP") &&
       !StartsWith(s, "MUD") && !StartsWith(s, "MUE")) || s == [] ==>
        ClassifySubwayIncident(code) == Miscellaneous
    ensures code.None? ==> ClassifySubwayIncident(code) == Miscellaneous
  {
  }

  /** Sample codes of the single-letter rules and one that no rule covers. */
  lemma ClassifyExamples()
    ensures ClassifySubwayIncident(Some("E123")) == EquipmentMechanical
    ensures ClassifySubwayIncident(Some("P001")) == EquipmentMechanical
    ensures ClassifySubwayIncident(Some("S123")) == SecuritySafety
    ensures ClassifySubwayIncident(Some("T001")) == OperatorIncident
    ensures ClassifySubwayIncident(Some("Z999")) == Miscellaneous
  {
    ClassifyEquipmentExamples();
    ClassifyOtherExamples();
  }

  lemma ClassifyEquipmentExamples()
    ensures ClassifySubwayIncident(Some("E123")) == EquipmentMechanical
    ensures ClassifySubwayIncident(Some("P001")) == EquipmentMechanical
  {
    assert "E123"[..1] == "E";
    assert "P001"[..1] == "P" && "P001"[..3] == "P00";
  }

  lemma ClassifyOtherExamples()
    ensures ClassifySubwayIncident(Some("S123")) == SecuritySafety
    ensures ClassifySubwayIncident(Some("T001")) == OperatorIncident
    ensures ClassifySubwayIncident(Some("Z999")) == Miscellaneous
  {
    assert "S123"[..1] == "S" && "S123"[..3] == "S12";
    assert "T001"[..1] == "T" && "T001"[..3] == "T00";
    assert "Z999"[..1] == "Z" && "Z999"[..3] == "Z99";
  }

  /** Sample codes of the three-letter rules. */
  lemma ClassifyExamplesMU()
    ensures ClassifySubwayIncident(Some("MUIS1")) == SecuritySafety
    ensures ClassifySubwayIncident(Some("MUD40")) == EquipmentMechanical
  {
    assert "MUIS1"[..1] == "M" && "MUIS1"[..3] == "MUI";
    assert "MUD40"[..1] == "M" && "MUD40"[..3] == "MUD";
  }

  /** A row of the classified code table: code, code_description, incident. */
  datatype ClassifiedCode = ClassifiedCode(code: Option<string>, description: Option<string>, incident: string)

  /** The code table with an incident column computed from each code. */
  function ClassifyCodes(codes: seq<CodeEntry>): (r: seq<ClassifiedCode>)
    ensures |r| == |codes|
    ensures forall i :: 0 <= i < |codes| ==>
      r[i].code == codes[i].code && r[i].description == codes[i].description &&
      r[i].incident == ClassifySubwayIncident(codes[i].code)
  {
    seq(|codes|, i requires 0 <= i < |codes| =>
      ClassifiedCode(codes[i].code, codes[i].description, ClassifySubwayIncident(codes[i].code)))
  }

  // ---------------------------------------------------------------------------
  // Inner join on `code`

  /** One delay row paired with one code row of equal code (missing matches missing). */
  datatype Joined = Joined(delay: SubwayDelay, entry: ClassifiedCode)

  /** The code rows whose code equals `code`, in table order. */
  function Matches(code: Option<string>, codes: seq<ClassifiedCode>): (r: seq<ClassifiedCode>)
    ensures forall e :: e in r <==> e in codes && e.code == code
  {
    Filter((e: ClassifiedCode) => e.code == code, codes)
  }

  function PairWith(d: SubwayDelay, es: seq<ClassifiedCode>): (r: seq<Joined>)
    ensures |r| == |es|
    ensures forall j :: j in r <==> j.delay == d && j.entry in es
  {
    var r := seq(|es|, i requires 0 <= i < |es| => Joined(d, es[i]));
    forall j: Joined | j.delay == d && j.entry in es
      ensures j in r
    {
      var i :| 0 <= i < |es| && es[i] == j.entry;
      assert r[i] == j;
    }
    r
  }

  /** `pd.merge(delays, codes, on="code", how="inner")`: for each delay row, in order,
      one output row per code row with the same code. */
  function InnerJoin(delays: seq<SubwayDelay>, codes: seq<ClassifiedCode>): (r: seq<Joined>)
    ensures forall j :: j in r <==> j.delay in delays && j.entry in codes && j.delay.code == j.entry.code
  {
    if delays == [] then []
    else
      var init, last := delays[..|delays| - 1], delays[|delays| - 1];
      assert delays == init + [last];
      InnerJoin(init, codes) + PairWith(last, Matches(last.code, codes))
  }

  /** The codes present in the code table. */
  function KnownCodes(codes: seq<ClassifiedCode>): set<Option<string>> {
    set e | e in codes :: e.code
  }

  /** The mask "the delay row's code is in the code table". */
  function HasKnownCode(codes: seq<ClassifiedCode>): SubwayDelay -> bool {
    (d: SubwayDelay) => d.code in KnownCodes(codes)
  }

  /** No code occurs twice in the code table. */
  predicate UniqueCodes(codes: seq<ClassifiedCode>) {
    forall i, j :: 0 <= i < j < |codes| ==> codes[i].code != codes[j].code
  }

  lemma {:induction false} MatchesUnique(code: Option<string>, codes: seq<ClassifiedCode>)
    requires UniqueCodes(codes)
    ensures |Matches(code, codes)| == if code in KnownCodes(codes) then 1 else 0
  {
    if codes != [] {
      var init, last := codes[..|codes| - 1], codes[|codes| - 1];
      assert codes == init + [last];
      MatchesUnique(code, init);
      assert KnownCodes(codes) == KnownCodes(init) + {last.code};
      if last.code == code {
        assert code !in KnownCodes(init);
      }
    }
  }

  /** With unique codes in the code table, the join keeps each delay row with a known code
      exactly once, in order, and drops the others. */
  lemma {:induction false} JoinUniqueCodes(delays: seq<SubwayDelay>, codes: seq<ClassifiedCode>)
    requires UniqueCodes(codes)
    ensures var kept := Filter(HasKnownCode(codes), delays);
      |InnerJoin(delays, codes)| == |kept| &&
      forall i :: 0 <= i < |kept| ==> InnerJoin(delays, codes)[i].delay == kept[i]
  {
    if delays != [] {
      var init, last := delays[..|delays| - 1], delays[|delays| - 1];
      assert delays == init + [last];
      JoinUniqueCodes(init, codes);
      MatchesUnique(last.code, codes);
      FilterSnoc(HasKnownCode(codes), init, last);
      var joined, kept := InnerJoin(init, codes), Filter(HasKnownCode(codes), init);
      var pairs := PairWith(last, Matches(last.code, codes));
      assert InnerJoin(delays, codes) == joined + pairs;
      if HasKnownCode(codes)(last) {
        assert pairs[0] in pairs;
        forall i | 0 <= i < |kept| + 1 ensures (joined + pairs)[i].delay == (kept + [last])[i] {
          if i < |kept| {
            assert (joined + pairs)[i] == joined[i];
          }
        }
      } else {
        assert pairs == [];
      }
    }
  }

  // ---------------------------------------------------------------------------
  // Projection and line names

  /** A joined row reduced to date, time, day, incident, min_delay, min_gap, line. */
  datatype Projected = Projected(
    date: string, time: string, day: string,
    incident: string, minDelay: nat, minGap: int, line: Option<string>)

  function ProjectRow(j: Joined): Projected {
    var d := j.delay;
    Projected(d.date, d.time, d.day, j.entry.incident, d.minDelay, d.minGap, d.line)
  }

  /** The joined table reduced to the seven kept columns, row by row. */
  function Project(rows: seq<Joined>): (r: seq<Projected>)
    ensures |r| == |rows|
    ensures forall i :: 0 <= i < |rows| ==>
      r[i].incident == rows[i].entry.incident && r[i].line == rows[i].delay.line &&
      r[i].date == rows[i].delay.date && r[i].time == rows[i].delay.time &&
      r[i].day == rows[i].delay.day && r[i].minDelay == rows[i].delay.minDelay &&
      r[i].minGap == rows[i].delay.minGap
  {
    seq(|rows|, i requires 0 <= i < |rows| => ProjectRow(rows[i]))
  }

  const OtherLine := "Other"
  const YongeUniversity := "Yonge-University"
  const BloorDanforth := "Bloor-Danforth"
  const BothLines := "Yonge-University/Bloor-Danforth"

  /** Line names as recorded -> canonical line names. */
  const LineMap: map<string, string> := map[
    "YU" := YongeUniversity,
    "YUS" := YongeUniversity,
    "BD" := BloorDanforth,
    "BD LINE 2" := BloorDanforth,
    "SRT" := "Scarborough-RT",
    "SHP" := "Sheppard",
    "YU / BD" := BothLines,
    "BD/YU" := BothLines,
    "YU/BD" := BothLines,
    "YUS/BD" := BothLines,
    "YU & BD" := BothLines,
    "BLOOR DANFORTH & YONGE" := BothLines
  ]

  /** `series.map(line_map).fillna("Other")` on one cell. */
  function NormaliseLine(line: Option<string>): (r: string)
    ensures r in LineMap.Values || r == OtherLine
    ensures line.Some? && line.value in LineMap ==> r == LineMap[line.value]
    ensures r == OtherLine <==> line.None? || line.value !in LineMap
  {
    LineValuesNotOther();
    if line.Some? && line.value in LineMap then LineMap[line.value] else OtherLine
  }

  lemma LineValuesNotOther()
    ensures OtherLine !in LineMap.Values
  {
    forall v | v in LineMap.Values ensures v != OtherLine {
      var k :| k in LineMap && LineMap[k] == v;
    }
  }

  /** The aliases listed for the Yonge-University line, and an unknown name. */
  lemma NormaliseLineExamples()
    ensures NormaliseLine(Some("YU")) == NormaliseLine(Some("YUS")) == YongeUniversity
    ensures NormaliseLine(Some("ZZZ")) == OtherLine
    ensures NormaliseLine(None) == OtherLine
  {
    assert "ZZZ" !in LineMap;
  }

  function CategoriseRow(p: Projected): SubwayIncident {
    SubwayIncident(p.date, p.time, p.day, p.incident, p.minDelay, p.minGap, NormaliseLine(p.line))
  }

  /** The projected table with its line column normalised. */
  function NormaliseLines(rows: seq<Projected>): (r: seq<SubwayIncident>)
    ensures |r| == |rows|
    ensures forall i :: 0 <= i < |rows| ==> r[i] == CategoriseRow(rows[i])
  {
    seq(|rows|, i requires 0 <= i < |rows| => CategoriseRow(rows[i]))
  }

  // ---------------------------------------------------------------------------
  // Sorting by (date, time)

  /** Python's `<` on text: lexicographic by code point, a proper prefix first. */
  predicate TextLt(a: string, b: string) {
    b != [] && (a == [] || a[0] < b[0] || (a[0] == b[0] && TextLt(a[1..], b[1..])))
  }

  lemma {:induction false} TextLtIrreflexive(a: string)
    ensures !TextLt(a, a)
  {
    if a != [] {
      TextLtIrreflexive(a[1..]);
    }
  }

  lemma {:induction false} TextLtTrichotomy(a: string, b: string)
    ensures TextLt(a, b) || a == b || TextLt(b, a)
  {
    if a != [] && b != [] && a[0] == b[0] {
      TextLtTrichotomy(a[1..], b[1..]);
      assert a == [a[0]] + a[1..] && b == [b[0]] + b[1..];
    }
  }

  lemma {:induction false} TextLtTransitive(a: string, b: string, c: string)
    requires TextLt(a, b) && TextLt(b, c)
    ensures TextLt(a, c)
  {
    if a != [] && a[0] == b[0] == c[0] {
      TextLtTransitive(a[1..], b[1..], c[1..]);
    }
  }

  /** Row order of `sort_values(by=["date", "time"])`: by date, then by time, as text. */
  predicate DateTimeLe(x: SubwayIncident, y: SubwayIncident) {
    TextLt(x.date, y.date) || (x.date == y.date && (TextLt(x.time, y.time) || x.time == y.time))
  }

  lemma DateTimeLeTotal(x: SubwayIncident, y: SubwayIncident)
    ensures DateTimeLe(x, y) || DateTimeLe(y, x)
  {
    TextLtTrichotomy(x.date, y.date);
    TextLtTrichotomy(x.time, y.time);
  }

  lemma DateTimeLeTransitive(x: SubwayIncident, y: SubwayIncident, z: SubwayIncident)
    requires DateTimeLe(x, y) && DateTimeLe(y, z)
    ensures DateTimeLe(x, z)
  {
    if TextLt(x.date, y.date) && TextLt(y.date, z.date) {
      TextLtTransitive(x.date, y.date, z.date);
    } else if x.date == y.date == z.date && TextLt(x.time, y.time) && TextLt(y.time, z.time) {
      TextLtTransitive(x.time, y.time, z.time);
    }
  }

  /** `x` comes strictly before `y`: an earlier date, or the same date and an earlier time. */
  predicate DateTimeLt(x: SubwayIncident, y: SubwayIncident) {
    TextLt(x.date, y.date) || (x.date == y.date && TextLt(x.time, y.time))
  }

  predicate SameDateTime(x: SubwayIncident, y: SubwayIncident) {
    x.date == y.date && x.time == y.time
  }

  /** A row that is not strictly before another comes after it or ties with it. */
  lemma DateTimeNotLt(x: SubwayIncident, y: SubwayIncident)
    ensures !DateTimeLt(x, y) ==> DateTimeLe(y, x)
  {
    TextLtTrichotomy(x.date, y.date);
    TextLtTrichotomy(x.time, y.time);
  }

  lemma DateTimeLtLe(x: SubwayIncident, y: SubwayIncident, z: SubwayIncident)
    requires DateTimeLt(x, y) && DateTimeLe(y, z)
    ensures DateTimeLt(x, z) && !SameDateTime(x, z)
  {
    if TextLt(x.date, y.date) && TextLt(y.date, z.date) {
      TextLtTransitive(x.date, y.date, z.date);
    } else if x.date == y.date == z.date && TextLt(x.time, y.time) && TextLt(y.time, z.time) {
      TextLtTransitive(x.time, y.time, z.time);
    }
    TextLtIrreflexive(x.date);
    TextLtIrreflexive(x.time);
  }

  predicate SortedByDateTime(s: seq<SubwayIncident>) {
    forall i, j :: 0 <= i < j < |s| ==> DateTimeLe(s[i], s[j])
  }

  /** Insertion into a sorted table: `x` goes after every row that is not later than it. */
  function Insert(x: SubwayIncident, s: seq<SubwayIncident>): (r: seq<SubwayIncident>)
    requires SortedByDateTime(s)
    ensures SortedByDateTime(r)
    ensures multiset(r) == multiset(s) + multiset{x}
  {
    if s == [] then [x]
    else if DateTimeLt(x, s[0]) then
      InsertFront(x, s);
      [x] + s
    else
      var rest := Insert(x, s[1..]);
      DateTimeNotLt(x, s[0]);
      InsertAfter(x, s, rest);
      [s[0]] + rest
  }

  lemma InsertAfter(x: SubwayIncident, s: seq<SubwayIncident>, rest: seq<SubwayIncident>)
    requires SortedByDateTime(s) && s != [] && DateTimeLe(s[0], x)
    requires SortedByDateTime(rest) && multiset(rest) == multiset(s[1..]) + multiset{x}
    ensures SortedByDateTime([s[0]] + rest)
    ensures multiset([s[0]] + rest) == multiset(s) + multiset{x}
  {
    assert s == [s[0]] + s[1..];
    forall j | 0 <= j < |rest| ensures DateTimeLe(s[0], rest[j]) {
      assert rest[j] in multiset(rest);
      if rest[j] != x {
        assert rest[j] in s[1..];
      }
    }
  }

  lemma InsertFront(x: SubwayIncident, s: seq<SubwayIncident>)
    requires SortedByDateTime(s) && s != [] && DateTimeLe(x, s[0])
    ensures SortedByDateTime([x] + s)
  {
    forall j | 0 < j < |s| ensures DateTimeLe(x, s[j]) {
      DateTimeLeTransitive(x, s[0], s[j]);
    }
  }

  /** `sort_values(by=["date", "time"])`: the same rows, non-decreasing in (date, time). */
  function SortByDateTime(rows: seq<SubwayIncident>): (r: seq<SubwayIncident>)
    ensures SortedByDateTime(r)
    ensures multiset(r) == multiset(rows)
  {
    if rows == [] then []
    else
      assert rows == rows[..|rows| - 1] + [rows[|rows| - 1]];
      Insert(rows[|rows| - 1], SortByDateTime(rows[..|rows| - 1]))
  }

  /** The rows of `s` with the same date and time as `y`, in table order. */
  function Ties(y: SubwayIncident, s: seq<SubwayIncident>): seq<SubwayIncident> {
    if s == [] then []
    else (if SameDateTime(s[0], y) then [s[0]] else []) + Ties(y, s[1..])
  }

  lemma {:induction false} TiesSnoc(y: SubwayIncident, s: seq<SubwayIncident>, x: SubwayIncident)
    ensures Ties(y, s + [x]) == Ties(y, s) + if SameDateTime(x, y) then [x] else []
  {
    if s == [] {
      assert ([x])[1..] == [];
    } else {
      assert (s + [x])[1..] == s[1..] + [x];
      TiesSnoc(y, s[1..], x);
    }
  }

  lemma TiesCons(y: SubwayIncident, a: SubwayIncident, s: seq<SubwayIncident>)
    ensures Ties(y, [a] + s) == (if SameDateTime(a, y) then [a] else []) + Ties(y, s)
  {
    assert ([a] + s)[1..] == s;
  }

  lemma {:induction false} TiesNone(y: SubwayIncident, s: seq<SubwayIncident>)
    requires forall j :: 0 <= j < |s| ==> !SameDateTime(s[j], y)
    ensures Ties(y, s) == []
  {
    if s != [] {
      TiesNone(y, s[1..]);
    }
  }

  lemma TiesPrepend(y: SubwayIncident, a: SubwayIncident, r: seq<SubwayIncident>, s: seq<SubwayIncident>,
                    tail: seq<SubwayIncident>)
    requires Ties(y, r) == Ties(y, s) + tail
    ensures Ties(y, [a] + r) == Ties(y, [a] + s) + tail
  {
    TiesCons(y, a, r);
    TiesCons(y, a, s);
  }

  /** A row strictly before the head of a sorted table ties with none of its rows. */
  lemma TiesBeforeHead(x: SubwayIncident, s: seq<SubwayIncident>, y: SubwayIncident)
    requires SortedByDateTime(s) && s != [] && DateTimeLt(x, s[0]) && SameDateTime(x, y)
    ensures Ties(y, s) == []
  {
    forall j | 0 <= j < |s| ensures !SameDateTime(s[j], y) {
      DateTimeLtLe(x, s[0], s[j]);
    }
    TiesNone(y, s);
  }

  /** One step of the insertion: `x` goes first exactly when it is strictly earlier than
      the head. */
  lemma InsertStep(x: SubwayIncident, s: seq<SubwayIncident>)
    requires SortedByDateTime(s) && s != []
    ensures SortedByDateTime(s[1..])
    ensures Insert(x, s) == if DateTimeLt(x, s[0]) then [x] + s else [s[0]] + Insert(x, s[1..])
  {
  }

  /** Inserting `x` appends it to the rows it ties with: it goes after all of them. */
  lemma {:induction false} InsertTies(x: SubwayIncident, s: seq<SubwayIncident>, y: SubwayIncident)
    requires SortedByDateTime(s)
    ensures Ties(y, Insert(x, s)) == Ties(y, s) + if SameDateTime(x, y) then [x] else []
  {
    if s == [] {
      TiesCons(y, x, []);
    } else {
      InsertStep(x, s);
      if DateTimeLt(x, s[0]) {
        TiesCons(y, x, s);
        if SameDateTime(x, y) {
          TiesBeforeHead(x, s, y);
        }
      } else {
        InsertTies(x, s[1..], y);
        TiesPrepend(y, s[0], Insert(x, s[1..]), s[1..], if SameDateTime(x, y) then [x] else []);
        assert s == [s[0]] + s[1..];
      }
    }
  }

  /** The sort is stable: the rows of any one date and time keep their input order. */
  lemma {:induction false} SortByDateTimeStable(rows: seq<SubwayIncident>, y: SubwayIncident)
    ensures Ties(y, SortByDateTime(rows)) == Ties(y, rows)
  {
    if rows != [] {
      var init, last := rows[..|rows| - 1], rows[|rows| - 1];
      assert rows == init + [last];
      SortByDateTimeStable(init, y);
      InsertTies(last, SortByDateTime(init), y);
      TiesSnoc(y, init, last);
    }
  }

  // ---------------------------------------------------------------------------
  // The stage

  /** The categorised subway table: join, projection, line names, sort. */
  function CategoriseSubway(delays: seq<SubwayDelay>, codes: seq<CodeEntry>): (r: seq<SubwayIncident>)
    ensures SortedByDateTime(r)
    ensures |r| == |InnerJoin(delays, ClassifyCodes(codes))|
  {
    var normal := NormaliseLines(Project(InnerJoin(delays, ClassifyCodes(codes))));
    var sorted := SortByDateTime(normal);
    assert |sorted| == |multiset(sorted)| == |multiset(normal)| == |normal|;
    sorted
  }

  /** The categorised subway row built from a delay row and a code row. */
  function Categorised(d: SubwayDelay, e: CodeEntry): SubwayIncident {
    SubwayIncident(d.date, d.time, d.day, ClassifySubwayIncident(e.code), d.minDelay, d.minGap,
      NormaliseLine(d.line))
  }

  /** The sort keeps exactly the rows of the unsorted table. */
  lemma CategoriseSubwaySameRows(delays: seq<SubwayDelay>, codes: seq<CodeEntry>)
    ensures var normal := NormaliseLines(Project(InnerJoin(delays, ClassifyCodes(codes))));
      forall row :: row in CategoriseSubway(delays, codes) <==> row in normal
  {
    var normal := NormaliseLines(Project(InnerJoin(delays, ClassifyCodes(codes))));
    var out := CategoriseSubway(delays, codes);
    forall row ensures row in out <==> row in normal {
      assert row in out <==> row in multiset(out);
    }
  }

  /** Every categorised row comes from a delay row and a code row with equal codes
      (missing matching missing); its incident is a category and its line a canonical
      line name or "Other". */
  lemma CategoriseSubwaySound(delays: seq<SubwayDelay>, codes: seq<CodeEntry>)
    ensures forall row :: row in CategoriseSubway(delays, codes) ==>
      row.incident in ValidIncidents && (row.line in LineMap.Values || row.line == OtherLine)
    ensures forall row :: row in CategoriseSubway(delays, codes) ==>
      exists d, e :: d in delays && e in codes && d.code == e.code && row == Categorised(d, e)
  {
    var classified := ClassifyCodes(codes);
    var joined := InnerJoin(delays, classified);
    var normal := NormaliseLines(Project(joined));
    CategoriseSubwaySameRows(delays, codes);
    forall row | row in normal
      ensures exists d, e :: d in delays && e in codes && d.code == e.code && row == Categorised(d, e)
    {
      var i :| 0 <= i < |normal| && normal[i] == row;
      var j := joined[i];
      assert j in joined;
      var k :| 0 <= k < |classified| && classified[k] == j.entry;
      assert codes[k] in codes;
      assert row == Categorised(j.delay, codes[k]);
    }
  }

  /** Every delay row paired with every code row of the same code gives a categorised row. */
  lemma CategoriseSubwayComplete(delays: seq<SubwayDelay>, codes: seq<CodeEntry>)
    ensures forall d, e :: d in delays && e in codes && d.code == e.code ==>
      Categorised(d, e) in CategoriseSubway(delays, codes)
  {
    var classified := ClassifyCodes(codes);
    var joined := InnerJoin(delays, classified);
    var normal := NormaliseLines(Project(joined));
    CategoriseSubwaySameRows(delays, codes);
    forall d, e | d in delays && e in codes && d.code == e.code
      ensures Categorised(d, e) in normal
    {
      var k :| 0 <= k < |codes| && codes[k] == e;
      var j := Joined(d, classified[k]);
      assert j in joined;
      var i :| 0 <= i < |joined| && joined[i] == j;
      assert normal[i] == Categorised(d, e);
    }
  }

  // ---------------------------------------------------------------------------
  // Validation

  /** The assertions at the end of the stage, in the order they run. */
  datatype ParseCheck =
    | SubwayIncidentSet  // the subway incidents are exactly the four categories
    | BusIncidentSubset  // the non-missing bus incidents are among the four categories
    | SubwayDays         // seven distinct subway days
    | BusDays            // seven distinct bus days
    | SubwayMinDelay     // the smallest subway min_delay is at least 0
    | BusMinDelay        // the smallest bus min_delay is at least 0

  function SubwayIncidents(rows: seq<SubwayIncident>): set<string> {
    set r | r in rows :: r.incident
  }

  /** `incident.dropna().unique()` of the bus table. */
  function BusIncidents(rows: seq<BusDelay>): set<string> {
    set r | r in rows && r.incident.Some? :: r.incident.value
  }

  function SubwayDayNames(rows: seq<SubwayIncident>): set<string> {
    set r | r in rows :: r.day
  }

  function BusDayNames(rows: seq<BusDelay>): set<string> {
    set r | r in rows :: r.day
  }

  /** `min() >= 0` on a min_delay column of naturals: the minimum of an empty column is
      NaN, which compares false. */
  predicate MinDelayCheck(n: nat) {
    n > 0
  }

  /** What one assertion checks on the categorised subway rows and the mapped bus rows. */
  predicate ParseHolds(check: ParseCheck, subway: seq<SubwayIncident>, bus: seq<BusDelay>) {
    match check
    case SubwayIncidentSet => SubwayIncidents(subway) == ValidIncidents
    case BusIncidentSubset => BusIncidents(bus) <= ValidIncidents
    case SubwayDays => |SubwayDayNames(subway)| == 7
    case BusDays => |BusDayNames(bus)| == 7
    case SubwayMinDelay => MinDelayCheck(|subway|)
    case BusMinDelay => MinDelayCheck(|bus|)
  }

  /** The position of an assertion in the script: they run, and stop the run, in this order. */
  function ParseCheckOrder(check: ParseCheck): nat {
    match check
    case SubwayIncidentSet => 0
    case BusIncidentSubset => 1
    case SubwayDays => 2
    case BusDays => 3
    case SubwayMinDelay => 4
    case BusMinDelay => 5
  }

  /** The first assertion, in script order, that fails, if any. */
  function FirstFailedParseCheck(subway: seq<SubwayIncident>, bus: seq<BusDelay>): (r: Option<ParseCheck>)
    ensures r.None? <==>
      SubwayIncidents(subway) == ValidIncidents && BusIncidents(bus) <= ValidIncidents &&
      |SubwayDayNames(subway)| == 7 && |BusDayNames(bus)| == 7 &&
      MinDelayCheck(|subway|) && MinDelayCheck(|bus|)
    ensures r.Some? ==> !ParseHolds(r.value, subway, bus)
    ensures r.Some? ==> forall k :: ParseCheckOrder(k) < ParseCheckOrder(r.value) ==> ParseHolds(k, subway, bus)
  {
    if !ParseHolds(SubwayIncidentSet, subway, bus) then Some(SubwayIncidentSet)
    else if !ParseHolds(BusIncidentSubset, subway, bus) then Some(BusIncidentSubset)
    else if !ParseHolds(SubwayDays, subway, bus) then Some(SubwayDays)
    else if !ParseHolds(BusDays, subway, bus) then Some(BusDays)
    else if !ParseHolds(SubwayMinDelay, subway, bus) then Some(SubwayMinDelay)
    else if !ParseHolds(BusMinDelay, subway, bus) then Some(BusMinDelay)
    else None
  }

  /** Seven distinct days imply a non-empty table, so the two min_delay assertions,
      which come after the day assertions, never fail. */
  lemma MinDelayChecksPass(subway: seq<SubwayIncident>, bus: seq<BusDelay>)
    ensures FirstFailedParseCheck(subway, bus) != Some(SubwayMinDelay)
    ensures FirstFailedParseCheck(subway, bus) != Some(BusMinDelay)
  {
    if subway == [] {
      assert SubwayDayNames(subway) == {};
    }
    if bus == [] {
      assert BusDayNames(bus) == {};
    }
  }

  /** Every categorised subway incident is one of the four categories. */
  lemma CategoriseSubwayIncidents(delays: seq<SubwayDelay>, codes: seq<CodeEntry>)
    ensures SubwayIncidents(CategoriseSubway(delays, codes)) <= ValidIncidents
  {
    CategoriseSubwaySound(delays, codes);
  }

  /** The bus incidents after the lookup are always categories, and mapping the incident
      column keeps the days. */
  lemma MapBusIncidentsFacts(rows: seq<BusDelay>)
    ensures BusIncidents(MapBusIncidents(rows)) <= ValidIncidents
    ensures BusDayNames(MapBusIncidents(rows)) == BusDayNames(rows)
  {
    var mapped := MapBusIncidents(rows);
    forall t | t in BusIncidents(mapped) ensures t in ValidIncidents {
      var r :| r in mapped && r.incident.Some? && r.incident.value == t;
      var i :| 0 <= i < |mapped| && mapped[i] == r;
    }
    forall d | d in BusDayNames(rows) ensures d in BusDayNames(mapped) {
      var r :| r in rows && r.day == d;
      var i :| 0 <= i < |rows| && rows[i] == r;
      assert mapped[i] in mapped;
    }
    forall d | d in BusDayNames(mapped) ensures d in BusDayNames(rows) {
      var r :| r in mapped && r.day == d;
      var i :| 0 <= i < |mapped| && mapped[i] == r;
      assert rows[i] in rows;
    }
  }

  /** For tables whose incidents are already categories, the assertions pass exactly
      when every category occurs in the subway table and both have seven days. */
  lemma ChecksPassWhen(subway: seq<SubwayIncident>, bus: seq<BusDelay>)
    requires SubwayIncidents(subway) <= ValidIncidents && BusIncidents(bus) <= ValidIncidents
    ensures FirstFailedParseCheck(subway, bus).None? <==>
      ValidIncidents <= SubwayIncidents(subway) &&
      |SubwayDayNames(subway)| == 7 && |BusDayNames(bus)| == 7
  {
    if subway == [] {
      assert SubwayDayNames(subway) == {};
    }
    if bus == [] {
      assert BusDayNames(bus) == {};
    }
  }

  /** The outputs of the stage. */
  datatype Parsed = Parsed(bus: seq<BusDelay>, codes: seq<ClassifiedCode>, subway: seq<SubwayIncident>)

  /** The assertions on the outputs of the stage: the first one that fails stops the run.
      The `min_delay` ones never fail, and neither does the bus incident one once every bus
      incident is a category. */
  function CheckOutputs(out: Parsed): (r: Result<Parsed, ParseCheck>)
    ensures r.Success? <==> FirstFailedParseCheck(out.subway, out.bus).None?
    ensures r.Success? ==> r.value == out
    ensures r.Failure? ==> FirstFailedParseCheck(out.subway, out.bus) == Some(r.error)
    ensures r.Failure? ==> r.error != SubwayMinDelay && r.error != BusMinDelay
    ensures r.Failure? && BusIncidents(out.bus) <= ValidIncidents ==> r.error != BusIncidentSubset
  {
    MinDelayChecksPass(out.subway, out.bus);
    match FirstFailedParseCheck(out.subway, out.bus)
    case Some(check) => Failure(check)
    case None => Success(out)
  }

  /** The whole stage on the cleaned bus table, the merged code table and the unfiltered
      subway table. It stops at the first failing assertion. */
  function ParseAll(bus: seq<BusDelay>, codes: seq<CodeEntry>, delays: seq<SubwayDelay>): (r: Result<Parsed, ParseCheck>)
    ensures r.Success? ==>
      r.value.bus == MapBusIncidents(bus) && r.value.codes == ClassifyCodes(codes) &&
      r.value.subway == CategoriseSubway(delays, codes)
    ensures r.Failure? ==> r.error == SubwayIncidentSet || r.error == SubwayDays || r.error == BusDays
    ensures r.Failure? ==>
      FirstFailedParseCheck(CategoriseSubway(delays, codes), MapBusIncidents(bus)) == Some(r.error)
  {
    MapBusIncidentsFacts(bus);
    CheckOutputs(Parsed(MapBusIncidents(bus), ClassifyCodes(codes), CategoriseSubway(delays, codes)))
  }

  /** The stage succeeds exactly when every category occurs among the categorised subway
      rows and both tables have seven distinct days. */
  lemma ParseAllSucceeds(bus: seq<BusDelay>, codes: seq<CodeEntry>, delays: seq<SubwayDelay>)
    ensures ParseAll(bus, codes, delays).Success? <==>
      ValidIncidents <= SubwayIncidents(CategoriseSubway(delays, codes)) &&
      |SubwayDayNames(CategoriseSubway(delays, codes))| == 7 && |BusDayNames(bus)| == 7
  {
    var subway := CategoriseSubway(delays, codes);
    CategoriseSubwayIncidents(delays, codes);
    MapBusIncidentsFacts(bus);
    ChecksPassWhen(subway, MapBusIncidents(bus));
  }
}
