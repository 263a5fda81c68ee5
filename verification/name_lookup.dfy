/** Looking a name up in the span of its first letter (asmjit/core/instdb.cpp), and the spans that the
    generator writes (tools/tablegen.js). */
module NameLookup {
  import opened NameTable
  import opened NameData
  import opened NameProgram
  import opened NameSearch
  import opened Strings
  import opened Wrappers

  // --- The spans of names by their first letter ---

  predicate IsLetter(c: char) {
    'a' <= c <= 'z'
  }

  predicate StartsWith(name: string, c: char) {
    name != "" && name[0] == c
  }

  /** The first and the last name with a letter. */
  function FirstWith(names: seq<string>, c: char): (k: Option<nat>)
    ensures k.Some? ==> k.value < |names| && StartsWith(names[k.value], c)
  {
    if names == [] then None
    else
      var n := |names| - 1;
      var k := FirstWith(names[..n], c);
      if k.None? && StartsWith(names[n], c) then Some(n) else k
  }

  function LastWith(names: seq<string>, c: char): (k: Option<nat>)
    ensures k.Some? ==> k.value < |names| && StartsWith(names[k.value], c)
  {
    if names == [] then None
    else
      var n := |names| - 1;
      if StartsWith(names[n], c) then Some(n) else LastWith(names[..n], c)
  }

  /** The id 0 is that of no instruction. */
  function OrNone(k: Option<nat>): nat {
    if k.Some? then k.value else 0
  }

  /** If the first entry is the empty name, a span holds all names with its letter. */
  lemma {:induction false} SpanHoldsAll(names: seq<string>, c: char, k: nat)
    requires names != [] && names[0] == "" && k < |names| && StartsWith(names[k], c)
    ensures 0 < OrNone(FirstWith(names, c)) <= k <= OrNone(LastWith(names, c)) < |names|
  {
    var n := |names| - 1;
    if k < n { SpanHoldsAll(names[..n], c, k); }
    assert FirstWith(names, c) != Some(0);
  }

  datatype Span = Span(start: nat, end: nat)

  function SpanOf(names: seq<string>, c: char): Span {
    Span(OrNone(FirstWith(names, c)), OrNone(LastWith(names, c)) + 1)
  }

  function Letter(i: nat): char
    requires i < 26
  {
    ('a' as int + i) as char
  }

  ghost predicate AreSpans(spans: seq<Span>, names: seq<string>) {
    |spans| == 26 && forall i | 0 <= i < 26 :: spans[i] == SpanOf(names, Letter(i))
  }

  lemma {:induction false} NextSpans(names: seq<string>, i: nat)
    requires i < |names|
    ensures forall j | 0 <= j < 26 ::
              var c := Letter(j);
              && FirstWith(names[..i + 1], c)
                 == (if FirstWith(names[..i], c).None? && StartsWith(names[i], c) then Some(i) else FirstWith(names[..i], c))
              && LastWith(names[..i + 1], c) == if StartsWith(names[i], c) then Some(i) else LastWith(names[..i], c)
  {
    assert names[..i + 1][..i] == names[..i];
  }

  /** Collects the spans of the letters; the program stops at a name that begins with anything else. */
  method SpansOfLetters(names: seq<string>) returns (spans: Option<seq<Span>>)
    ensures spans.None? <==> exists k :: 0 <= k < |names| && names[k] != "" && !IsLetter(names[k][0])
    ensures spans.Some? ==> AreSpans(spans.value, names)
  {
    var first: seq<Option<nat>>, last: seq<Option<nat>> := seq(26, _ => None), seq(26, _ => None);
    var i := 0;
    while i < |names|
      invariant i <= |names| && |first| == |last| == 26
      invariant forall k | 0 <= k < i :: names[k] == "" || IsLetter(names[k][0])
      invariant forall j | 0 <= j < 26 :: first[j] == FirstWith(names[..i], Letter(j)) && last[j] == LastWith(names[..i], Letter(j))
    {
      NextSpans(names, i);
      hide FirstWith, LastWith;
      if names[i] != "" {
        var alphaIndex := names[i][0] as int - 'a' as int;
        if alphaIndex < 0 || alphaIndex >= 26 { return None; }
        if first[alphaIndex].None? { first := first[alphaIndex := Some(i)]; }
        last := last[alphaIndex := Some(i)];
      }
      i := i + 1;
    }
    assert names[..i] == names;
    return Some(seq(26, j requires 0 <= j < |first| && j < |last| => Span(OrNone(first[j]), OrNone(last[j]) + 1)));
  }

  /** What the reader looks up: the span of the first letter, which is empty if it begins at 0. */
  function Lookup(s: string, names: seq<string>): Option<nat>
    requires s != "" && names != []
  {
    var span := SpanOf(names, s[0]);
    if !IsLetter(s[0]) || span.start == 0 || span.start > span.end || span.end > |names| then None
    else Search(s, names, span.start, span.end - span.start)
  }

  method FindInstruction(s: string, entries: seq<nat>, table: string, spans: seq<Span>, ghost names: seq<string>)
    returns (at: Option<nat>)
    requires s != "" && names != [] && names[0] == "" && Spells(entries, table, names) && AreSpans(spans, names)
    ensures at == Lookup(s, names)
  {
    hide Search, Spells;
    var prefix := s[0] as int - 'a' as int;
    if prefix < 0 || prefix > 25 { return None; }
    var base, end := spans[prefix].start, spans[prefix].end;
    assert Letter(prefix) == s[0];
    if base == 0 { return None; }
    SpanHoldsAll(names, s[0], base);
    at := Find(s, entries, table, base, end, names);
  }

  /** The name at `k` is reached in the span of its letter. */
  ghost predicate IsReached(names: seq<string>, k: nat)
    requires k < |names|
  {
    names[k] != "" && IsLetter(names[k][0]) &&
    var span := SpanOf(names, names[k][0]);
    0 < span.start <= k < span.end <= |names| && Reached(names, span.start, span.end - span.start, k)
  }

  ghost predicate SomeReached(s: string, names: seq<string>) {
    exists k | 0 <= k < |names| :: names[k] == s && IsReached(names, k)
  }

  /** The stretch of names that is searched for a string. */
  lemma {:induction false} Searched(s: string, names: seq<string>) returns (base: nat, lim: nat)
    requires s != "" && names != [] && names[0] == "" && IsLetter(s[0]) && SpanOf(names, s[0]).start > 0
    ensures base + lim <= |names| && Lookup(s, names) == Search(s, names, base, lim)
    ensures forall k | base <= k < base + lim && names[k] == s :: IsReached(names, k) <==> Reached(names, base, lim, k)
    ensures forall k | 0 <= k < |names| && names[k] == s && IsReached(names, k) :: base <= k < base + lim
  {
    GoodSpan(names, s[0]);
    hide SpanOf, Search, Reached, IsLetter;
    var span := SpanOf(names, s[0]);
    base, lim := span.start, span.end - span.start;
    forall k | 0 <= k < |names| && names[k] == s
      ensures IsReached(names, k) <==> base <= k < base + lim && Reached(names, base, lim, k)
    {
    }
    hide IsReached;
  }

  lemma {:induction false} GoodSpan(names: seq<string>, c: char)
    requires names != [] && names[0] == "" && SpanOf(names, c).start > 0
    ensures var span := SpanOf(names, c); span.start < span.end <= |names|
  {
    SpanHoldsAll(names, c, SpanOf(names, c).start);
  }

  lemma {:induction false} NothingReached(s: string, names: seq<string>)
    requires s != "" && names != [] && (!IsLetter(s[0]) || SpanOf(names, s[0]).start == 0)
    ensures !SomeReached(s, names) && Lookup(s, names) == None
  {
    hide SpanOf, Search, Reached;
  }

  /** Whatever the order of the names: a string is found exactly if a name with this spelling is
      reached in the span of its letter. */
  lemma {:induction false} LookupIsExact(s: string, names: seq<string>)
    requires s != "" && names != [] && names[0] == ""
    ensures Lookup(s, names).Some? ==> Lookup(s, names).value < |names| && names[Lookup(s, names).value] == s
    ensures Lookup(s, names).Some? <==> SomeReached(s, names)
  {
    if IsLetter(s[0]) && SpanOf(names, s[0]).start > 0 {
      hide SpanOf, Search, Reached, Lookup, IsReached;
      var base, lim := Searched(s, names);
      SearchIsSound(s, names, base, lim);
      SearchFinds(s, names, base, lim);
    } else {
      NothingReached(s, names);
      hide Lookup, SomeReached;
    }
  }

  lemma {:induction false} LookupAtPlace(names: seq<string>, c: char, k: nat)
    requires names != [] && names[0] == "" && k < |names| && StartsWith(names[k], c)
    ensures Lookup(names[k], names) == Some(k) <==> IsReached(names, k)
  {
    SpanHoldsAll(names, c, k);
    hide SpanOf, Search, Reached, Lookup, IsReached, FirstWith, LastWith;
    if IsLetter(c) {
      StartOfSpan(names, c);
      var base, lim := Searched(names[k], names);
      SearchIsSound(names[k], names, base, lim);
      if base <= k < base + lim { FoundAtPlace(names, base, lim, k); }
    } else {
      NothingReached(names[k], names);
      assert !SomeReached(names[k], names);
    }
  }

  lemma {:induction false} StartOfSpan(names: seq<string>, c: char)
    ensures SpanOf(names, c).start == OrNone(FirstWith(names, c))
  {
  }

  /** Every name of a letter is found exactly if each has its spelling reached somewhere, and at its own
      place exactly if it is reached itself. */
  lemma {:induction false} LetterIsFound(names: seq<string>, c: char)
    requires names != [] && names[0] == ""
    ensures (forall k | 0 <= k < |names| && StartsWith(names[k], c) :: Lookup(names[k], names).Some?) <==>
            (forall k | 0 <= k < |names| && StartsWith(names[k], c) :: SomeReached(names[k], names))
    ensures (forall k | 0 <= k < |names| && StartsWith(names[k], c) :: Lookup(names[k], names) == Some(k)) <==>
            (forall k | 0 <= k < |names| && StartsWith(names[k], c) :: IsReached(names, k))
  {
    forall k | 0 <= k < |names| && StartsWith(names[k], c)
      ensures Lookup(names[k], names).Some? <==> SomeReached(names[k], names)
      ensures Lookup(names[k], names) == Some(k) <==> IsReached(names, k)
    {
      LookupIsExact(names[k], names);
      LookupAtPlace(names, c, k);
    }
    hide Lookup, SomeReached, IsReached;
  }

  ghost predicate SpanAscends(names: seq<string>, c: char) {
    var span := SpanOf(names, c);
    span.start <= span.end <= |names| ==> Ascending(names, span.start, span.end)
  }

  /** In a span that ascends nothing is missed. */
  lemma {:induction false} AscendingSpanMissesNothing(s: string, names: seq<string>)
    requires s != "" && names != [] && names[0] == "" && IsLetter(s[0]) && SpanAscends(names, s[0])
    ensures Lookup(s, names).Some? <==> s in names
  {
    var span := SpanOf(names, s[0]);
    hide FirstWith, LastWith, Search, Compare, Ascending, IsLetter;
    if Lookup(s, names).Some? {
      SearchIsSound(s, names, span.start, span.end - span.start);
    } else if s in names {
      var k :| 0 <= k < |names| && names[k] == s;
      SpanHoldsAll(names, s[0], k);
      SearchMissesNothing(s, names, span.start, span.end - span.start);
    }
  }

  /** The names of vector instructions follow all others and come without their suffix, so the span of
      a letter need not ascend. Then a name can be missed. */
  lemma {:induction false} LookupCanMiss()
    ensures var names := ["", "abs", "zip", "and"]; Lookup("and", names) == None
  {
    var names := ["", "abs", "zip", "and"];
    assert names[..3] == ["", "abs", "zip"] && names[..3][..2] == ["", "abs"] && names[..3][..2][..1] == [""];
    assert FirstWith([""], 'a') == None by { assert [""][..0] == []; }
    assert FirstWith(["", "abs"], 'a') == Some(1) && FirstWith(["", "abs", "zip"], 'a') == Some(1);
    assert SpanOf(names, 'a') == Span(1, 4);
    assert Compare("and", "zip") < 0 && Compare("and", "abs") > 0 by {
      assert "and"[1..] == "nd" && "abs"[1..] == "bs";
    }
    assert Search("and", names, 1, 3) == Search("and", names, 1, 1) == Search("and", names, 2, 0) == None;
  }

  lemma {:induction false} AddNext(requests: seq<Request>, i: nat)
    requires i < |requests|
    ensures AddAll(requests[..i + 1]) == NameData.Add(AddAll(requests[..i]), Request(requests[i].name, requests[i].alias))
  {
    assert requests[..i + 1] == requests[..i] + [requests[i]];
    AddLast(requests[..i], requests[i]);
    hide NameData.Add;
  }

  /** Fills the table with the names in their order and indexes it. */
  method Generate(requests: seq<Request>) returns (data: InstructionNameData)
    ensures fresh(data) && data.View() == Index(AddAll(requests))
  {
    data := new InstructionNameData();
    var i := 0;
    while i < |requests|
      invariant i <= |requests| && fresh(data) && data.View() == AddAll(requests[..i])
    {
      hide NameData.Add, AddAll, NameData.Index;
      data.Add(requests[i].name, requests[i].alias);
      AddNext(requests, i);
      i := i + 1;
    }
    assert requests[..i] == requests;
    data.Index();
  }

  /** Generator and reader together, for names of sizes that fit, in any order: a string is found
      exactly if the name of some request is this string and is reached in the span of its letter; in
      a span that ascends, exactly if it was added. */
  method GenerateAndFind(s: string, requests: seq<Request>) returns (at: Option<Option<nat>>)
    requires |Index(AddAll(requests)).table| <= 0x1000 && AllFit(requests)
    requires s != "" && requests != [] && requests[0].name == ""
    ensures at.None? <==> exists r | r in requests :: r.name != "" && !IsLetter(r.name[0])
    ensures at.Some? && at.value.Some? ==> at.value.value < |requests| && requests[at.value.value].name == s
    ensures at.Some? ==> (at.value.Some? <==> SomeReached(s, Names(requests)))
    ensures at.Some? && at.value.None? && SpanAscends(Names(requests), s[0]) ==> forall r | r in requests :: r.name != s
  {
    var names := Names(requests);
    var spans := SpansOfLetters(names);
    LettersOfNames(requests);
    if spans.None? { return None; }
    var data := Generate(requests);
    GeneratedSpells(requests);
    hide Index, AddAll, AllFit, AreSpans, Lookup, SpanOf, SomeReached, SpanAscends, IsLetter;
    LookupIsExact(s, names);
    var found := FindInstruction(s, data.primaryTable, data.stringTable, spans.value, names);
    if SpanAscends(names, s[0]) && IsLetter(s[0]) { AscendingSpanMissesNothing(s, names); }
    return Some(found);
  }

  lemma {:induction false} LettersOfNames(requests: seq<Request>)
    ensures var names := Names(requests);
            && ((exists k :: 0 <= k < |names| && names[k] != "" && !IsLetter(names[k][0])) <==>
                exists r | r in requests :: r.name != "" && !IsLetter(r.name[0]))
            && forall r | r in requests :: r.name in names
  {
    var names := Names(requests);
    if k :| 0 <= k < |names| && names[k] != "" && !IsLetter(names[k][0]) {
      assert requests[k] in requests;
    }
    forall r | r in requests ensures r.name in names {
      var k :| 0 <= k < |requests| && requests[k] == r;
      assert names[k] == r.name;
    }
  }

  function Names(requests: seq<Request>): seq<string> {
    seq(|requests|, k requires 0 <= k < |requests| => requests[k].name)
  }

  lemma {:induction false} GeneratedSpells(requests: seq<Request>)
    requires |Index(AddAll(requests)).table| <= 0x1000 && AllFit(requests)
    ensures var d := Index(AddAll(requests)); Spells(d.entries, d.table, Names(requests))
  {
    var d := Index(AddAll(requests));
    hide Decode, Index, AddAll, AllFit;
    forall k | 0 <= k < |requests|
      ensures |d.entries| == |requests| && Decode(d.entries[k], false, d.table) == Some(requests[k].name)
    {
      EveryNameDecodes(requests, k);
    }
  }
}
