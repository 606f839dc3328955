/** Subject detection in `exam:assign-questions`: the exam's name is
    lower-cased and run through a fixed chain of keyword tests; the first
    test that succeeds decides the tag filter handed to the question
    selector, and a name that passes none gets no filter. */
module SubjectDetection {
  import opened Wrappers
  import opened AsciiText

  /** The subject tags the command can put into `$filters['tags']`. */
  datatype Tag = Python | Php | NodeJs | JavaScript | Java | Sql | Dsa

  /** The tag string passed to the selector. */
  function TagName(t: Tag): string {
    match t
    case Python => "python"
    case Php => "php"
    case NodeJs => "nodejs"
    case JavaScript => "javascript"
    case Java => "java"
    case Sql => "sql"
    case Dsa => "dsa"
  }

  /** The tag strings the command can ever produce. */
  const KnownTagNames: set<string> :=
    {"python", "php", "nodejs", "javascript", "java", "sql", "dsa"}

  /** Detection as the command writes it: lower-case the name, then run the
      keyword chain. */
  function Detect(examName: string): Option<Tag> {
    Classify(Lower(examName))
  }

  /** The keyword chain, applied to the lower-cased name, exactly as
      written: including the keyword "nodejs" (already covered by "node")
      and the guard "no javascript" on the Java branch (already excluded by
      the branch before it). */
  function Classify(name: string): Option<Tag> {
    if Contains(name, "python") then Some(Python)
    else if Contains(name, "php") then Some(Php)
    else if Contains(name, "node") || Contains(name, "nodejs") then Some(NodeJs)
    else if Contains(name, "javascript") || Contains(name, "js") then Some(JavaScript)
    else if Contains(name, "java") && !Contains(name, "javascript") then Some(Java)
    else if Contains(name, "sql") || Contains(name, "database") then Some(Sql)
    else if Contains(name, "c++") || Contains(name, "dsa") || Contains(name, "data structures") then Some(Dsa)
    else None
  }

  /** The filter the command builds: the tag string, or no filter at all. */
  function FilterTag(examName: string): (r: Option<string>)
    ensures r.Some? ==> r.value in KnownTagNames
    ensures r.None? <==> Detect(examName).None?
    ensures forall t :: r == Some(TagName(t)) <==> Detect(examName) == Some(t)
  {
    Detect(examName).Map(TagName)
  }

  // ---------------------------------------------------------------------
  // An independent reference: a priority table of keywords, searched in
  // order, with every redundant test of the command removed.
  // ---------------------------------------------------------------------

  /** The keywords that select a tag once no earlier tag has matched. */
  function Keywords(t: Tag): seq<string> {
    match t
    case Python => ["python"]
    case Php => ["php"]
    case NodeJs => ["node"]
    case JavaScript => ["javascript", "js"]
    case Java => ["java"]
    case Sql => ["sql", "database"]
    case Dsa => ["c++", "dsa", "data structures"]
  }

  /** Position of a tag in the priority order (0 is tested first). */
  function Rank(t: Tag): nat {
    match t
    case Python => 0
    case Php => 1
    case NodeJs => 2
    case JavaScript => 3
    case Java => 4
    case Sql => 5
    case Dsa => 6
  }

  datatype Entry = Entry(tag: Tag, keywords: seq<string>)

  const PriorityTable: seq<Entry> := [
    Entry(Python, Keywords(Python)),
    Entry(Php, Keywords(Php)),
    Entry(NodeJs, Keywords(NodeJs)),
    Entry(JavaScript, Keywords(JavaScript)),
    Entry(Java, Keywords(Java)),
    Entry(Sql, Keywords(Sql)),
    Entry(Dsa, Keywords(Dsa))
  ]

  /** Some keyword of the list occurs in `s`. */
  predicate AnyKeyword(s: string, keywords: seq<string>) {
    if |keywords| == 0 then false
    else Contains(s, keywords[0]) || AnyKeyword(s, keywords[1..])
  }

  lemma AnyKeywordPair(s: string, k1: string, k2: string)
    ensures AnyKeyword(s, [k2]) == Contains(s, k2)
    ensures AnyKeyword(s, [k1, k2]) == (Contains(s, k1) || Contains(s, k2))
  {
  }

  /** The tag of the first table entry one of whose keywords occurs in `s`. */
  function FirstMatch(table: seq<Entry>, s: string): Option<Tag> {
    if |table| == 0 then None
    else if AnyKeyword(s, table[0].keywords) then Some(table[0].tag)
    else FirstMatch(table[1..], s)
  }

  /** Entry `i` is the first one with a keyword occurring in `s`. */
  predicate FirstMatchingEntry(table: seq<Entry>, s: string, i: int) {
    0 <= i < |table|
    && AnyKeyword(s, table[i].keywords)
    && forall j :: 0 <= j < i ==> !AnyKeyword(s, table[j].keywords)
  }

  /** The table search finds nothing exactly when no entry matches, and
      otherwise returns the tag of the first matching entry. */
  lemma {:induction false} FirstMatchSpec(table: seq<Entry>, s: string)
    ensures FirstMatch(table, s).None? <==> forall i :: 0 <= i < |table| ==> !AnyKeyword(s, table[i].keywords)
    ensures FirstMatch(table, s).Some?
        ==> exists i :: FirstMatchingEntry(table, s, i) && table[i].tag == FirstMatch(table, s).value
  {
    if |table| > 0 && !AnyKeyword(s, table[0].keywords) {
      var tail := table[1..];
      FirstMatchSpec(tail, s);
      assert forall i :: 1 <= i < |table| ==> tail[i - 1] == table[i];
      if FirstMatch(tail, s).Some? {
        var i :| FirstMatchingEntry(tail, s, i) && tail[i].tag == FirstMatch(tail, s).value;
        assert FirstMatchingEntry(table, s, i + 1);
      }
    } else if |table| > 0 {
      assert FirstMatchingEntry(table, s, 0);
    }
  }

  /** In a table whose tags are distinct, the search returns the tag of
      entry `i` exactly when entry `i` is the first matching one. */
  lemma FirstMatchAt(table: seq<Entry>, s: string, i: int)
    requires 0 <= i < |table|
    requires forall j :: 0 <= j < |table| && j != i ==> table[j].tag != table[i].tag
    ensures FirstMatch(table, s) == Some(table[i].tag) <==> FirstMatchingEntry(table, s, i)
  {
    FirstMatchSpec(table, s);
    if FirstMatch(table, s) == Some(table[i].tag) {
      var k :| FirstMatchingEntry(table, s, k) && table[k].tag == table[i].tag;
      assert k == i;
    }
    if FirstMatchingEntry(table, s, i) {
      assert FirstMatch(table, s).Some?;
      var k :| FirstMatchingEntry(table, s, k) && table[k].tag == FirstMatch(table, s).value;
      assert !(k < i) && !(i < k);
    }
  }

  /** The tag at each position of the priority table. */
  function TagAt(j: nat): Tag
    requires j < 7
  {
    [Python, Php, NodeJs, JavaScript, Java, Sql, Dsa][j]
  }

  /** Rank and table position agree: position `Rank(t)` holds `t` with its
      keywords, and the tag at position `j` has rank `j`. */
  lemma TableOrderIsRank()
    ensures |PriorityTable| == 7
    ensures forall t :: PriorityTable[Rank(t)] == Entry(t, Keywords(t))
    ensures forall j :: 0 <= j < 7 ==> Rank(TagAt(j)) == j && PriorityTable[j].tag == TagAt(j)
  {
  }

  /** "nodejs" and "javascript" contain the shorter keywords "node" and
      "java". */
  lemma LongKeywordsContainShortOnes(name: string)
    ensures Contains(name, "nodejs") ==> Contains(name, "node")
    ensures Contains(name, "javascript") ==> Contains(name, "java")
  {
    if Contains(name, "nodejs") {
      assert Contains("nodejs", "node");
      ContainsTransitive(name, "nodejs", "node");
    }
    if Contains(name, "javascript") {
      assert Contains("javascript", "java");
      ContainsTransitive(name, "javascript", "java");
    }
  }

  /** Each tag's keyword list occurs in a name exactly when one of its
      keywords does. */
  lemma KeywordsOccur(name: string)
    ensures AnyKeyword(name, Keywords(Python)) == Contains(name, "python")
    ensures AnyKeyword(name, Keywords(Php)) == Contains(name, "php")
    ensures AnyKeyword(name, Keywords(NodeJs)) == Contains(name, "node")
    ensures AnyKeyword(name, Keywords(JavaScript)) == (Contains(name, "javascript") || Contains(name, "js"))
    ensures AnyKeyword(name, Keywords(Java)) == Contains(name, "java")
    ensures AnyKeyword(name, Keywords(Sql)) == (Contains(name, "sql") || Contains(name, "database"))
    ensures AnyKeyword(name, Keywords(Dsa))
        == (Contains(name, "c++") || Contains(name, "dsa") || Contains(name, "data structures"))
  {
    AnyKeywordPair(name, "javascript", "js");
    AnyKeywordPair(name, "sql", "database");
    AnyKeywordPair(name, "dsa", "data structures");
    assert Keywords(Dsa)[1..] == ["dsa", "data structures"];
  }

  /** The command's chain and the priority table agree on every name: the
      test for "nodejs" and the Java branch's "no javascript" guard never
      change the outcome. */
  lemma DetectFollowsPriorityTable(examName: string)
    ensures Detect(examName) == FirstMatch(PriorityTable, Lower(examName))
  {
    var name := Lower(examName);
    LongKeywordsContainShortOnes(name);
    KeywordsOccur(name);
    var t := PriorityTable;
    assert t[6..][1..] == [];
    assert FirstMatch(t[6..], name) == if AnyKeyword(name, Keywords(Dsa)) then Some(Dsa) else None;
    assert t[5..][1..] == t[6..];
    assert FirstMatch(t[5..], name)
        == if AnyKeyword(name, Keywords(Sql)) then Some(Sql) else FirstMatch(t[6..], name);
    assert t[4..][1..] == t[5..];
    assert FirstMatch(t[4..], name)
        == if AnyKeyword(name, Keywords(Java)) then Some(Java) else FirstMatch(t[5..], name);
    assert t[3..][1..] == t[4..];
    assert FirstMatch(t[3..], name)
        == if AnyKeyword(name, Keywords(JavaScript)) then Some(JavaScript) else FirstMatch(t[4..], name);
    assert t[2..][1..] == t[3..];
    assert FirstMatch(t[2..], name)
        == if AnyKeyword(name, Keywords(NodeJs)) then Some(NodeJs) else FirstMatch(t[3..], name);
    assert t[1..][1..] == t[2..];
    assert FirstMatch(t[1..], name)
        == if AnyKeyword(name, Keywords(Php)) then Some(Php) else FirstMatch(t[2..], name);
    assert FirstMatch(t, name)
        == if AnyKeyword(name, Keywords(Python)) then Some(Python) else FirstMatch(t[1..], name);
  }

  /** A keyword of tag `t` occurs and no keyword of any tag ranked before it. */
  predicate FirstMention(name: string, t: Tag) {
    AnyKeyword(name, Keywords(t))
    && forall u :: Rank(u) < Rank(t) ==> !AnyKeyword(name, Keywords(u))
  }

  /** In the priority table the first matching entry is the first
      mentioned tag. */
  lemma FirstMatchIsFirstMention(name: string, t: Tag)
    ensures FirstMatch(PriorityTable, name) == Some(t) <==> FirstMention(name, t)
  {
    TableOrderIsRank();
    var i := Rank(t);
    FirstMatchAt(PriorityTable, name, i);
    if FirstMatchingEntry(PriorityTable, name, i) {
      forall u | Rank(u) < Rank(t) ensures !AnyKeyword(name, Keywords(u)) {
        assert PriorityTable[Rank(u)] == Entry(u, Keywords(u));
      }
    }
    if FirstMention(name, t) {
      forall j | 0 <= j < i ensures !AnyKeyword(name, PriorityTable[j].keywords) {
        var u := TagAt(j);
        assert PriorityTable[Rank(u)] == Entry(u, Keywords(u));
      }
    }
  }

  /** The first match wins: the detected tag is exactly the highest-priority
      tag one of whose keywords occurs in the lower-cased name. */
  lemma DetectIsFirstMention(examName: string, t: Tag)
    ensures Detect(examName) == Some(t) <==> FirstMention(Lower(examName), t)
  {
    DetectFollowsPriorityTable(examName);
    FirstMatchIsFirstMention(Lower(examName), t);
  }

  /** Every keyword the command tests, longer ones included. */
  const AllKeywords: seq<string> :=
    ["python", "php", "node", "js", "java", "sql", "database", "c++", "dsa", "data structures"]

  /** No tag is detected exactly when the lower-cased name contains none of
      the ten keywords. */
  lemma NoTagIffNoKeyword(examName: string)
    ensures Detect(examName).None?
        <==> forall k :: 0 <= k < |AllKeywords| ==> !Contains(Lower(examName), AllKeywords[k])
  {
    var name := Lower(examName);
    LongKeywordsContainShortOnes(name);
    if Detect(examName).None? {
      forall k | 0 <= k < |AllKeywords| ensures !Contains(name, AllKeywords[k]) {
        assert AllKeywords[k] in {"python", "php", "node", "js", "java", "sql", "database",
                                  "c++", "dsa", "data structures"};
      }
    } else {
      assert !(forall k :: 0 <= k < |AllKeywords| ==> !Contains(name, AllKeywords[k])) by {
        if Contains(name, "python") { assert AllKeywords[0] == "python"; }
        else if Contains(name, "php") { assert AllKeywords[1] == "php"; }
        else if Contains(name, "node") { assert AllKeywords[2] == "node"; }
        else if Contains(name, "js") { assert AllKeywords[3] == "js"; }
        else if Contains(name, "java") { assert AllKeywords[4] == "java"; }
        else if Contains(name, "sql") { assert AllKeywords[5] == "sql"; }
        else if Contains(name, "database") { assert AllKeywords[6] == "database"; }
        else if Contains(name, "c++") { assert AllKeywords[7] == "c++"; }
        else if Contains(name, "dsa") { assert AllKeywords[8] == "dsa"; }
        else { assert AllKeywords[9] == "data structures"; }
      }
    }
  }

  /** Python outranks every other keyword, and PHP every keyword but
      Python's. */
  lemma PythonThenPhpWin(examName: string)
    ensures Contains(Lower(examName), "python") ==> Detect(examName) == Some(Python)
    ensures Contains(Lower(examName), "php") && !Contains(Lower(examName), "python")
            ==> Detect(examName) == Some(Php)
  {
  }

  /** The Node.js tag needs "node" and neither "python" nor "php". */
  lemma NodeJsCondition(examName: string)
    ensures Detect(examName) == Some(NodeJs)
        <==> var name := Lower(examName);
             Contains(name, "node") && !Contains(name, "python") && !Contains(name, "php")
  {
    LongKeywordsContainShortOnes(Lower(examName));
  }

  /** A name mentioning "javascript" is never tagged Java; the Java tag needs
      "java" and none of the keywords of the four tags ranked above it. */
  lemma JavaCondition(examName: string)
    ensures Contains(Lower(examName), "javascript") ==> Detect(examName) != Some(Java)
    ensures Detect(examName) == Some(Java)
        <==> var name := Lower(examName);
             Contains(name, "java") && !Contains(name, "python") && !Contains(name, "php")
             && !Contains(name, "node") && !Contains(name, "js") && !Contains(name, "javascript")
  {
    LongKeywordsContainShortOnes(Lower(examName));
  }

  /** Detection ignores ASCII case: names equal up to case get the same tag,
      and in particular a name and its lower-cased form do. */
  lemma DetectIgnoresCase(s: string, t: string)
    ensures SameIgnoringCase(s, t) ==> Detect(s) == Detect(t)
    ensures Detect(Lower(s)) == Detect(s)
  {
    SameIgnoringCaseIffSameLower(s, t);
    LowerIdempotent(s);
  }

  /** Keywords are matched as bare substrings, not words: a name that
      mentions "json" is never a Java exam, and one that mentions "nodes"
      (as in a graph-algorithms exam) is tagged Node.js unless Python or
      PHP outranks it. */
  lemma SubstringsInsideOtherWords(examName: string)
    ensures Contains(Lower(examName), "json") ==> Detect(examName) != Some(Java)
    ensures Contains(Lower(examName), "nodes") && Detect(examName) != Some(Python)
            && Detect(examName) != Some(Php)
            ==> Detect(examName) == Some(NodeJs)
  {
    var name := Lower(examName);
    if Contains(name, "json") {
      assert Contains("json", "js");
      ContainsTransitive(name, "json", "js");
      JavaCondition(examName);
    }
    if Contains(name, "nodes") {
      assert Contains("nodes", "node");
      ContainsTransitive(name, "nodes", "node");
    }
  }
}
