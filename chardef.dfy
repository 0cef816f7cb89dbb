/**
 * The table generator: reading the `%chardef` section of an Array30 `.cin`
 * input method file into a character-to-codes table, sorting it, and the
 * binary-search lookup the generated table is queried with.
 */
module CharDef {
  import opened Wrappers
  import opened Text

  // ---------------------------------------------------------------------
  // Whitespace, `str.strip()` and `str.split()`
  // ---------------------------------------------------------------------

  /**
   * The characters Python's `str.strip()` and `str.split()` treat as
   * whitespace: tab to carriage return, the four information separators,
   * space, next line, no-break space and the Unicode spaces and line and
   * paragraph separators, the ideographic space among them.
   */
  predicate IsSpace(c: char)
  {
    || c == ' ' || '\t' <= c <= '\r' || '\U{1C}' <= c <= '\U{1F}'
    || c == '\U{85}' || c == '\U{A0}' || c == '\U{1680}' || '\U{2000}' <= c <= '\U{200A}'
    || c == '\U{2028}' || c == '\U{2029}' || c == '\U{202F}' || c == '\U{205F}' || c == '\U{3000}'
  }

  predicate AllSpace(s: string) { forall i :: 0 <= i < |s| ==> IsSpace(s[i]) }

  predicate NoSpace(s: string) { forall i :: 0 <= i < |s| ==> !IsSpace(s[i]) }

  /** `s.lstrip()`. */
  function TrimLeft(s: string): string
  {
    if s == [] || !IsSpace(s[0]) then s else TrimLeft(s[1..])
  }

  /** `s.rstrip()`. */
  function TrimRight(s: string): string
  {
    if s == [] || !IsSpace(s[|s| - 1]) then s else TrimRight(s[..|s| - 1])
  }

  /** `s.strip()`. */
  function Strip(s: string): string
  {
    TrimRight(TrimLeft(s))
  }

  /** Left trimming keeps a suffix, drops only whitespace, and leaves no leading whitespace. */
  lemma {:induction false} TrimLeftSpec(s: string)
    ensures |TrimLeft(s)| <= |s| && TrimLeft(s) == s[|s| - |TrimLeft(s)|..]
    ensures AllSpace(s[..|s| - |TrimLeft(s)|])
    ensures TrimLeft(s) == [] || !IsSpace(TrimLeft(s)[0])
  {
    if s != [] && IsSpace(s[0]) {
      TrimLeftSpec(s[1..]);
      var t := TrimLeft(s);
      assert s[..|s| - |t|] == [s[0]] + s[1..][..|s| - 1 - |t|];
    }
  }

  /** Right trimming keeps a prefix, drops only whitespace, and leaves no trailing whitespace. */
  lemma {:induction false} TrimRightSpec(s: string)
    ensures |TrimRight(s)| <= |s| && TrimRight(s) == s[..|TrimRight(s)|]
    ensures AllSpace(s[|TrimRight(s)|..])
    ensures TrimRight(s) == [] || !IsSpace(TrimRight(s)[|TrimRight(s)| - 1])
  {
    if s != [] && IsSpace(s[|s| - 1]) {
      var p := s[..|s| - 1];
      TrimRightSpec(p);
      var t := TrimRight(s);
      assert s[|t|..] == p[|t|..] + [s[|s| - 1]];
    }
  }

  /** A stripped line begins and ends with a non-whitespace character, and is empty only for an all-whitespace line. */
  lemma StripSpec(s: string)
    ensures Strip(s) == [] || (!IsSpace(Strip(s)[0]) && !IsSpace(Strip(s)[|Strip(s)| - 1]))
    ensures Strip(s) == [] <==> AllSpace(s)
  {
    var l := TrimLeft(s);
    TrimLeftSpec(s);
    TrimRightSpec(l);
    var t := TrimRight(l);
    assert t != [] ==> t[0] == l[0];
    assert s == s[..|s| - |l|] + l;
  }

  /** Stripping a stripped line changes nothing. */
  lemma StripIdempotent(s: string)
    ensures Strip(Strip(s)) == Strip(s)
  {
    StripSpec(s);
  }

  /** The longest prefix without whitespace. */
  function Word(s: string): (w: string)
    ensures |w| <= |s| && w == s[..|w|] && NoSpace(w)
    ensures |w| < |s| ==> IsSpace(s[|w|])
  {
    if s == [] || IsSpace(s[0]) then []
    else
      var w := [s[0]] + Word(s[1..]);
      assert s == [s[0]] + s[1..];
      w
  }

  /** `s.split()`: the maximal runs of non-whitespace, in order. */
  function Fields(s: string): (fs: seq<string>)
    ensures forall i :: 0 <= i < |fs| ==> fs[i] != [] && NoSpace(fs[i])
    decreases |s|
  {
    if s == [] then []
    else if IsSpace(s[0]) then Fields(s[1..])
    else
      var w := Word(s);
      [w] + Fields(s[|w|..])
  }

  /** The concatenation of a list of strings. */
  function Concat(parts: seq<string>): string
  {
    if parts == [] then [] else parts[0] + Concat(parts[1..])
  }

  /** The string with its whitespace removed. */
  function RemoveSpaces(s: string): (t: string)
    ensures NoSpace(t)
  {
    if s == [] then []
    else if IsSpace(s[0]) then RemoveSpaces(s[1..])
    else [s[0]] + RemoveSpaces(s[1..])
  }

  lemma {:induction false} RemoveSpacesAppend(a: string, b: string)
    ensures RemoveSpaces(a + b) == RemoveSpaces(a) + RemoveSpaces(b)
  {
    if a != [] {
      assert (a + b)[0] == a[0] && (a + b)[1..] == a[1..] + b;
      RemoveSpacesAppend(a[1..], b);
      if IsSpace(a[0]) {
        assert RemoveSpaces(a + b) == RemoveSpaces(a[1..] + b);
      } else {
        assert RemoveSpaces(a + b) == [a[0]] + RemoveSpaces(a[1..] + b);
      }
    } else {
      assert a + b == b;
    }
  }

  lemma {:induction false} RemoveSpacesOfWord(w: string)
    requires NoSpace(w)
    ensures RemoveSpaces(w) == w
  {
    if w != [] {
      RemoveSpacesOfWord(w[1..]);
      assert w == [w[0]] + w[1..];
    }
  }

  /** The fields hold exactly the non-whitespace characters of the line, in order. */
  lemma {:induction false} FieldsKeepText(s: string)
    ensures Concat(Fields(s)) == RemoveSpaces(s)
    decreases |s|
  {
    if s != [] {
      if IsSpace(s[0]) {
        FieldsKeepText(s[1..]);
      } else {
        var w := Word(s);
        var rest := s[|w|..];
        assert s == w + rest;
        FieldsKeepText(rest);
        RemoveSpacesAppend(w, rest);
        RemoveSpacesOfWord(w);
        assert Fields(s)[1..] == Fields(rest);
      }
    }
  }

  /** Whitespace before the text gives no field. */
  lemma {:induction false} FieldsSkipSpace(sp: string, t: string)
    requires AllSpace(sp)
    ensures Fields(sp + t) == Fields(t)
    decreases |sp|
  {
    if sp != [] {
      assert (sp + t)[0] == sp[0] && IsSpace(sp[0]);
      assert (sp + t)[1..] == sp[1..] + t;
      FieldsSkipSpace(sp[1..], t);
    } else {
      assert sp + t == t;
    }
  }

  /** The first word of a whitespace-free word followed by nothing or by whitespace is that word. */
  lemma {:induction false} WordBeforeSpace(w: string, rest: string)
    requires NoSpace(w) && (rest == [] || IsSpace(rest[0]))
    ensures Word(w + rest) == w
  {
    if w == [] {
      assert w + rest == rest;
    } else {
      assert (w + rest)[0] == w[0];
      assert (w + rest)[1..] == w[1..] + rest;
      WordBeforeSpace(w[1..], rest);
      assert [w[0]] + w[1..] == w;
    }
  }

  /** A field ends exactly where whitespace begins; the whitespace after it is skipped. */
  lemma FieldsWordThenSpace(w: string, sp: string, t: string)
    requires w != [] && NoSpace(w)
    requires sp != [] && AllSpace(sp)
    ensures Fields(w + sp + t) == [w] + Fields(t)
  {
    var s := w + sp + t;
    assert s == w + (sp + t);
    WordBeforeSpace(w, sp + t);
    assert s[|w|..] == sp + t;
    FieldsSkipSpace(sp, t);
  }

  /** A single whitespace-free word is one field. */
  lemma FieldsOfWord(w: string)
    requires w != [] && NoSpace(w)
    ensures Fields(w) == [w]
  {
    WordBeforeSpace(w, []);
    assert w + [] == w;
    assert w[|w|..] == [];
  }

  /** Joining whitespace-free words with whitespace and splitting the result gives the words back. */
  lemma {:induction false} FieldsJoinRoundTrip(ws: seq<string>, sep: string)
    requires sep != [] && AllSpace(sep)
    requires forall i :: 0 <= i < |ws| ==> ws[i] != [] && NoSpace(ws[i])
    ensures Fields(JoinWith(ws, sep)) == ws
  {
    if |ws| == 1 {
      FieldsOfWord(ws[0]);
    } else if |ws| > 1 {
      FieldsJoinRoundTrip(ws[1..], sep);
      FieldsWordThenSpace(ws[0], sep, JoinWith(ws[1..], sep));
      assert [ws[0]] + ws[1..] == ws;
    }
  }

  // ---------------------------------------------------------------------
  // One line of the file
  // ---------------------------------------------------------------------

  const Begin: string := "%chardef begin"
  const End: string := "%chardef end"

  /**
   * A stripped line inside the section, as an entry: the first field is the
   * code, the second the character; lines with fewer than two fields, or
   * whose second field is not a single character, give nothing.
   */
  function Entry(line: string): (e: Option<(string, char)>)
    ensures e.Some? <==> |Fields(line)| >= 2 && |Fields(line)[1]| == 1
    ensures e.Some? ==> e.value == (Fields(line)[0], Fields(line)[1][0])
  {
    var parts := Fields(line);
    if |parts| >= 2 && |parts[1]| == 1 then Some((parts[0], parts[1][0])) else None
  }

  /** What a raw line is once stripped, in the order the loop tests it. */
  datatype LineKind = Blank | Open | Close | Comment | Data(line: string)

  function Classify(raw: string): (k: LineKind)
    ensures k.Data? ==> k.line == Strip(raw) && k.line != [] && k.line[0] != '#'
  {
    var line := Strip(raw);
    if line == [] then Blank
    else if line == Begin then Open
    else if line == End then Close
    else if line[0] == '#' then Comment
    else Data(line)
  }

  /** What a raw line inside the section contributes: markers, blanks and comments give nothing. */
  function EntryOf(raw: string): (e: Option<(string, char)>)
    ensures !Classify(raw).Data? ==> e == None
    ensures Classify(raw).Data? ==> e == Entry(Strip(raw))
  {
    match Classify(raw)
    case Data(line) => Entry(line)
    case _ => None
  }

  // ---------------------------------------------------------------------
  // The line-by-line state machine
  // ---------------------------------------------------------------------

  /**
   * The loop's state: the section flag, the characters in the order they
   * were first seen (the dict's insertion order), and each character's codes.
   */
  datatype ParseState = ParseState(inChardef: bool, order: seq<char>, codes: map<char, seq<string>>)

  predicate NoDuplicates(s: seq<char>)
  {
    forall i, j :: 0 <= i < j < |s| ==> s[i] != s[j]
  }

  /** The order lists the mapped characters once each, and no character has an empty code list. */
  predicate WellFormed(st: ParseState)
  {
    && NoDuplicates(st.order)
    && (forall c :: c in st.codes <==> c in st.order)
    && (forall c :: c in st.codes ==> st.codes[c] != [])
  }

  const Initial: ParseState := ParseState(false, [], map[])

  /** `mappings.setdefault(char, []).append(code)`. */
  function Add(st: ParseState, c: char, code: string): (st': ParseState)
    ensures st'.inChardef == st.inChardef
    ensures c in st'.codes && st'.codes[c] == (if c in st.codes then st.codes[c] else []) + [code]
    ensures forall d :: d != c ==> (d in st'.codes <==> d in st.codes)
    ensures forall d :: d != c && d in st.codes ==> st'.codes[d] == st.codes[d]
    ensures WellFormed(st) ==> WellFormed(st')
  {
    if c in st.codes then
      st.(codes := st.codes[c := st.codes[c] + [code]])
    else
      st.(order := st.order + [c], codes := st.codes[c := [code]])
  }

  /**
   * One iteration of the loop over the file's lines: only the markers move
   * the section flag, and only a data line inside the section can change
   * the collected table.
   */
  function Step(st: ParseState, raw: string): (st': ParseState)
    ensures Classify(raw) != Open && Classify(raw) != Close ==> st'.inChardef == st.inChardef
    ensures !(st.inChardef && Classify(raw).Data?) ==> st'.order == st.order && st'.codes == st.codes
  {
    match Classify(raw)
    case Open => st.(inChardef := true)
    case Close => st.(inChardef := false)
    case Data(line) =>
      if st.inChardef then
        var e := Entry(line);
        if e.Some? then Add(st, e.value.1, e.value.0) else st
      else st
    case _ => st
  }

  /** The state after the loop has seen `lines`. */
  function Parse(lines: seq<string>): ParseState
  {
    if lines == [] then Initial else Step(Parse(lines[..|lines| - 1]), lines[|lines| - 1])
  }

  /** Every line keeps the state well formed. */
  lemma StepWellFormed(st: ParseState, raw: string)
    requires WellFormed(st)
    ensures WellFormed(Step(st, raw))
  {
  }

  /** The collected table lists each character once, with at least one code. */
  lemma {:induction false} ParseWellFormed(lines: seq<string>)
    ensures WellFormed(Parse(lines))
  {
    if lines != [] {
      ParseWellFormed(lines[..|lines| - 1]);
      StepWellFormed(Parse(lines[..|lines| - 1]), lines[|lines| - 1]);
    }
  }

  /** The mapping loop of `generate_rust_data`. */
  method CollectMappings(lines: seq<string>) returns (order: seq<char>, mappings: map<char, seq<string>>)
    ensures order == Parse(lines).order && mappings == Parse(lines).codes
  {
    var inChardef := false;
    order := [];
    mappings := map[];
    for i := 0 to |lines|
      invariant ParseState(inChardef, order, mappings) == Parse(lines[..i])
    {
      assert lines[..i + 1][..i] == lines[..i];
      ghost var before := ParseState(inChardef, order, mappings);
      assert Parse(lines[..i + 1]) == Step(before, lines[i]);
      var line := Strip(lines[i]);
      if line == [] {
        continue;
      }
      if line == Begin {
        inChardef := true;
        continue;
      }
      if line == End {
        inChardef := false;
        continue;
      }
      if inChardef {
        if line[0] == '#' {
          continue;
        }
        var parts := Fields(line);
        if |parts| >= 2 {
          var code := parts[0];
          var ch := parts[1];
          if |ch| != 1 {
            continue;
          }
          if ch[0] !in mappings {
            mappings := mappings[ch[0] := []];
            order := order + [ch[0]];
          }
          mappings := mappings[ch[0] := mappings[ch[0]] + [code]];
          assert ParseState(inChardef, order, mappings) == Add(before, ch[0], code);
        }
      }
    }
    assert lines[..|lines|] == lines;
  }

  // ---------------------------------------------------------------------
  // What the loop collects, stated without the loop
  // ---------------------------------------------------------------------

  /** Whether the last marker among `lines` opened the section. */
  function InSectionAfter(lines: seq<string>): bool
  {
    if lines == [] then false
    else match Classify(lines[|lines| - 1])
      case Open => true
      case Close => false
      case _ => InSectionAfter(lines[..|lines| - 1])
  }

  /** The (code, character) entries of the lines that lie inside a section, in file order. */
  function Entries(lines: seq<string>): seq<(string, char)>
  {
    if lines == [] then []
    else
      var prefix := lines[..|lines| - 1];
      var e := EntryOf(lines[|lines| - 1]);
      Entries(prefix) + (if InSectionAfter(prefix) && e.Some? then [e.value] else [])
  }

  /** The codes of the entries for character `c`, in order. */
  function CodesOf(entries: seq<(string, char)>, c: char): seq<string>
  {
    if entries == [] then []
    else
      CodesOf(entries[..|entries| - 1], c)
        + (if entries[|entries| - 1].1 == c then [entries[|entries| - 1].0] else [])
  }

  /**
   * The loop collects, for every character, exactly the codes of its entries
   * inside the section, in file order and with duplicates kept; characters
   * without such entries are absent.
   */
  lemma {:induction false} ParseCollectsEntries(lines: seq<string>)
    ensures Parse(lines).inChardef == InSectionAfter(lines)
    ensures forall c :: c in Parse(lines).codes <==> CodesOf(Entries(lines), c) != []
    ensures forall c :: c in Parse(lines).codes ==> Parse(lines).codes[c] == CodesOf(Entries(lines), c)
  {
    if lines != [] {
      var prefix := lines[..|lines| - 1];
      var raw := lines[|lines| - 1];
      ParseCollectsEntries(prefix);
      var before := Parse(prefix);
      var es := Entries(prefix);
      var e := EntryOf(raw);
      assert Parse(lines) == Step(before, raw);
      if InSectionAfter(prefix) && e.Some? {
        var es' := es + [e.value];
        assert Parse(lines) == Add(before, e.value.1, e.value.0);
        assert Entries(lines) == es';
        assert es'[..|es|] == es;
        forall c
          ensures CodesOf(es', c) == CodesOf(es, c) + (if e.value.1 == c then [e.value.0] else [])
        {
        }
      } else {
        assert Parse(lines).codes == before.codes;
        assert Entries(lines) == es;
      }
    }
  }

  /** Lines before the first opening marker contribute nothing. */
  lemma {:induction false} NoSectionNoEntries(lines: seq<string>)
    requires forall i :: 0 <= i < |lines| ==> Classify(lines[i]) != Open
    ensures !InSectionAfter(lines) && Entries(lines) == []
    ensures !Parse(lines).inChardef && Parse(lines).codes == map[] && Parse(lines).order == []
  {
    if lines != [] {
      var prefix := lines[..|lines| - 1];
      var last := lines[|lines| - 1];
      assert forall i :: 0 <= i < |prefix| ==> prefix[i] == lines[i];
      NoSectionNoEntries(prefix);
      assert Classify(last) != Open;
      OutsideSectionUnchanged(Parse(prefix), last);
    }
  }

  /** A line outside the section, other than an opening marker, leaves the collected table as it was. */
  lemma OutsideSectionUnchanged(st: ParseState, raw: string)
    requires !st.inChardef && Classify(raw) != Open
    ensures Step(st, raw).order == st.order && Step(st, raw).codes == st.codes
    ensures !Step(st, raw).inChardef
  {
  }

  /** The markers only switch the flag. */
  lemma MarkersOnlyToggle(st: ParseState, raw: string)
    requires Classify(raw) == Open || Classify(raw) == Close
    ensures Step(st, raw) == st.(inChardef := Classify(raw) == Open)
  {
  }

  /** Blank and comment lines change nothing at all. */
  lemma BlankAndCommentsIgnored(st: ParseState, raw: string)
    requires Classify(raw) == Blank || Classify(raw) == Comment
    ensures Step(st, raw) == st
  {
  }

  // ---------------------------------------------------------------------
  // Sorting
  // ---------------------------------------------------------------------

  predicate Increasing(s: seq<char>)
  {
    forall i, j :: 0 <= i < j < |s| ==> s[i] < s[j]
  }

  predicate NonDecreasing(s: seq<char>)
  {
    forall i, j :: 0 <= i < j < |s| ==> s[i] <= s[j]
  }

  function InsertChar(x: char, s: seq<char>): (r: seq<char>)
    ensures multiset(r) == multiset(s) + multiset{x}
  {
    if s == [] || x <= s[0] then [x] + s
    else
      assert s == [s[0]] + s[1..];
      [s[0]] + InsertChar(x, s[1..])
  }

  /** Every character of an insertion is the inserted one or one of the list's. */
  lemma InsertCharFrom(x: char, s: seq<char>, k: nat)
    requires k < |InsertChar(x, s)|
    ensures InsertChar(x, s)[k] == x || InsertChar(x, s)[k] in s
  {
    assert InsertChar(x, s)[k] in multiset(InsertChar(x, s));
  }

  /** Inserting keeps a list in order. */
  lemma {:induction false} InsertCharNonDecreasing(x: char, s: seq<char>)
    requires NonDecreasing(s)
    ensures NonDecreasing(InsertChar(x, s))
  {
    if s != [] && x > s[0] {
      var rest := InsertChar(x, s[1..]);
      InsertCharNonDecreasing(x, s[1..]);
      forall k | 0 <= k < |rest|
        ensures s[0] <= rest[k]
      {
        InsertCharFrom(x, s[1..], k);
      }
      assert InsertChar(x, s) == [s[0]] + rest;
    }
  }

  /** Inserting a character not yet in a strictly increasing list keeps it strictly increasing. */
  lemma {:induction false} InsertCharIncreasing(x: char, s: seq<char>)
    requires Increasing(s) && x !in s
    ensures Increasing(InsertChar(x, s))
  {
    if s != [] && x > s[0] {
      var rest := InsertChar(x, s[1..]);
      InsertCharIncreasing(x, s[1..]);
      forall k | 0 <= k < |rest|
        ensures s[0] < rest[k]
      {
        InsertCharFrom(x, s[1..], k);
      }
      assert InsertChar(x, s) == [s[0]] + rest;
    }
  }

  /** `sorted(mappings.keys())`: by code point; a list without repeats becomes strictly increasing. */
  function SortChars(s: seq<char>): (r: seq<char>)
    ensures multiset(r) == multiset(s)
    ensures forall y :: y in r <==> y in s
  {
    if s == [] then []
    else
      assert s == [s[0]] + s[1..];
      var r := InsertChar(s[0], SortChars(s[1..]));
      assert forall y :: y in r <==> y in multiset(r);
      assert forall y :: y in s <==> y in multiset(s);
      r
  }

  /** The sorted characters are in order, strictly when the input has no repeats. */
  lemma {:induction false} SortCharsSorted(s: seq<char>)
    ensures NonDecreasing(SortChars(s))
    ensures NoDuplicates(s) ==> Increasing(SortChars(s))
  {
    if s != [] {
      var rest := SortChars(s[1..]);
      SortCharsSorted(s[1..]);
      InsertCharNonDecreasing(s[0], rest);
      if NoDuplicates(s) {
        assert NoDuplicates(s[1..]) && s[0] !in rest;
        InsertCharIncreasing(s[0], rest);
      }
    }
  }

  predicate ByLength(s: seq<string>)
  {
    forall i, j :: 0 <= i < j < |s| ==> |s[i]| <= |s[j]|
  }

  /** The strings of length `n`, in order. */
  function OfLength(s: seq<string>, n: nat): seq<string>
  {
    if s == [] then [] else (if |s[0]| == n then [s[0]] else []) + OfLength(s[1..], n)
  }

  /** Insert before the first string that is at least as long. */
  function InsertByLength(x: string, s: seq<string>): (r: seq<string>)
    ensures multiset(r) == multiset(s) + multiset{x}
  {
    if s == [] || |x| <= |s[0]| then [x] + s
    else
      assert s == [s[0]] + s[1..];
      [s[0]] + InsertByLength(x, s[1..])
  }

  /** Inserting keeps a list sorted by length. */
  lemma {:induction false} InsertByLengthSorted(x: string, s: seq<string>)
    requires ByLength(s)
    ensures ByLength(InsertByLength(x, s))
  {
    if s != [] && |x| > |s[0]| {
      var rest := InsertByLength(x, s[1..]);
      InsertByLengthSorted(x, s[1..]);
      forall k | 0 <= k < |rest|
        ensures |s[0]| <= |rest[k]|
      {
        assert rest[k] in multiset(rest);
        assert rest[k] == x || rest[k] in s[1..];
      }
      assert InsertByLength(x, s) == [s[0]] + rest;
    }
  }

  /** `sorted(codes, key=len)`: shortest first. */
  function SortByLength(s: seq<string>): (r: seq<string>)
    ensures multiset(r) == multiset(s)
    ensures ByLength(r)
  {
    if s == [] then []
    else
      assert s == [s[0]] + s[1..];
      var sorted := SortByLength(s[1..]);
      InsertByLengthSorted(s[0], sorted);
      InsertByLength(s[0], sorted)
  }

  /** The strings of length `n` in a list with one more string at its head. */
  lemma OfLengthCons(a: string, rest: seq<string>, n: nat)
    ensures OfLength([a] + rest, n) == (if |a| == n then [a] else []) + OfLength(rest, n)
  {
    assert ([a] + rest)[1..] == rest;
  }

  /** A shorter string at the head of two lists leaves the difference between their strings of length `n` as it was. */
  lemma OfLengthShorterHead(a: string, x: string, rest: seq<string>, tail: seq<string>, n: nat)
    requires |a| < |x|
    requires OfLength(rest, n) == (if |x| == n then [x] else []) + OfLength(tail, n)
    ensures OfLength([a] + rest, n) == (if |x| == n then [x] else []) + OfLength([a] + tail, n)
  {
    OfLengthCons(a, rest, n);
    OfLengthCons(a, tail, n);
    if |x| == n {
      assert |a| != n;
    }
  }

  /** Inserting puts the new string ahead of the others of its length. */
  lemma {:induction false} InsertByLengthStable(x: string, s: seq<string>, n: nat)
    ensures OfLength(InsertByLength(x, s), n) == (if |x| == n then [x] else []) + OfLength(s, n)
  {
    if s != [] && |x| > |s[0]| {
      var rest := InsertByLength(x, s[1..]);
      InsertByLengthStable(x, s[1..], n);
      OfLengthShorterHead(s[0], x, rest, s[1..], n);
      assert InsertByLength(x, s) == [s[0]] + rest;
      assert s == [s[0]] + s[1..];
    } else {
      assert InsertByLength(x, s) == [x] + s;
      OfLengthCons(x, s, n);
    }
  }

  /** The sort is stable: the strings of each length keep their order. */
  lemma {:induction false} SortByLengthStable(s: seq<string>, n: nat)
    ensures OfLength(SortByLength(s), n) == OfLength(s, n)
  {
    if s != [] {
      SortByLengthStable(s[1..], n);
      InsertByLengthStable(s[0], SortByLength(s[1..]), n);
    }
  }

  // ---------------------------------------------------------------------
  // The generated table and its lookup
  // ---------------------------------------------------------------------

  /** A character's codes as the table lists them: shortest first, joined by commas. */
  function CodeList(codes: seq<string>): string
  {
    JoinWith(SortByLength(codes), ",")
  }

  /**
   * The code list with the separator the display splits on: shortest first,
   * joined by `|`, a character no Array30 key produces (the keys are the
   * letters and `,` `.` `/` `;`).
   */
  function PipeCodeList(codes: seq<string>): string
  {
    JoinWith(SortByLength(codes), "|")
  }

  /** One row per key, in the keys' order, each with its codes as the table lists them. */
  function Rows(keys: seq<char>, codes: map<char, seq<string>>): (rows: seq<(char, string)>)
    requires forall k :: 0 <= k < |keys| ==> keys[k] in codes
    ensures |rows| == |keys| && forall i :: 0 <= i < |rows| ==> rows[i].0 == keys[i]
  {
    seq(|keys|, i requires 0 <= i < |keys| => (keys[i], CodeList(codes[keys[i]])))
  }

  /** `ARRAY30_ENTRIES`: one entry per mapped character, by code point. */
  function Table(lines: seq<string>): (table: seq<(char, string)>)
    ensures KeysOf(table) == SortChars(Parse(lines).order)
  {
    ParseWellFormed(lines);
    var st := Parse(lines);
    Rows(SortChars(st.order), st.codes)
  }

  function KeysOf(table: seq<(char, string)>): (keys: seq<char>)
    ensures |keys| == |table| && forall i :: 0 <= i < |table| ==> keys[i] == table[i].0
  {
    seq(|table|, i requires 0 <= i < |table| => table[i].0)
  }

  /** The emission loop of `generate_rust_data`: one row per sorted character, its codes shortest first. */
  method EmitRows(keys: seq<char>, codes: map<char, seq<string>>) returns (rows: seq<(char, string)>)
    requires forall k :: 0 <= k < |keys| ==> keys[k] in codes
    ensures rows == Rows(keys, codes)
  {
    rows := [];
    for i := 0 to |keys|
      invariant |rows| == i
      invariant forall k :: 0 <= k < i ==> rows[k] == Rows(keys, codes)[k]
    {
      var c := keys[i];
      var sorted := SortByLength(codes[c]);
      rows := rows + [(c, JoinWith(sorted, ","))];
    }
  }

  /** `generate_rust_data`: collect the mappings, sort the characters, emit the rows. */
  method Generate(lines: seq<string>) returns (table: seq<(char, string)>)
    ensures table == Table(lines)
  {
    var order, mappings := CollectMappings(lines);
    ParseWellFormed(lines);
    var sortedChars := SortChars(order);
    assert forall k :: 0 <= k < |sortedChars| ==> sortedChars[k] in order;
    table := EmitRows(sortedChars, mappings);
  }

  /**
   * The table's characters are strictly increasing and are exactly the
   * mapped ones; each carries its own codes, shortest first.
   */
  lemma TableShape(lines: seq<string>)
    ensures Increasing(KeysOf(Table(lines)))
    ensures forall c :: c in KeysOf(Table(lines)) <==> c in Parse(lines).codes
    ensures forall i :: 0 <= i < |Table(lines)| ==>
      Table(lines)[i].0 in Parse(lines).codes && Table(lines)[i].1 == CodeList(Parse(lines).codes[Table(lines)[i].0])
  {
    ParseWellFormed(lines);
    SortCharsSorted(Parse(lines).order);
    var keys := KeysOf(Table(lines));
    assert keys == SortChars(Parse(lines).order);
  }

  /** Binary search for `c` among the entries `lo..hi`. */
  function Search(table: seq<(char, string)>, c: char, lo: nat, hi: nat): (r: Option<string>)
    requires lo <= hi <= |table|
    ensures r.Some? ==> exists i :: lo <= i < hi && table[i] == (c, r.value)
    decreases hi - lo
  {
    if lo == hi then None
    else
      var mid := (lo + hi) / 2;
      if table[mid].0 == c then Some(table[mid].1)
      else if table[mid].0 < c then Search(table, c, mid + 1, hi)
      else Search(table, c, lo, mid)
  }

  /** `get_array30_code`: whatever it returns is the codes of an entry for `c`. */
  function Lookup(table: seq<(char, string)>, c: char): (r: Option<string>)
    ensures r.Some? ==> exists i :: 0 <= i < |table| && table[i] == (c, r.value)
  {
    Search(table, c, 0, |table|)
  }

  /** With strictly increasing keys, the search finds an entry that lies in its range. */
  lemma {:induction false} SearchFinds(table: seq<(char, string)>, c: char, lo: nat, hi: nat, i: nat)
    requires Increasing(KeysOf(table))
    requires lo <= i < hi <= |table| && table[i].0 == c
    ensures Search(table, c, lo, hi) == Some(table[i].1)
    decreases hi - lo
  {
    var keys := KeysOf(table);
    var mid := (lo + hi) / 2;
    if table[mid].0 < c {
      assert keys[mid] < keys[i];
      SearchFinds(table, c, mid + 1, hi, i);
    } else if table[mid].0 > c {
      assert keys[i] < keys[mid];
      SearchFinds(table, c, lo, mid, i);
    }
  }

  /** On a table with strictly increasing keys, the lookup answers exactly for the keys, with their codes. */
  lemma LookupIffKey(table: seq<(char, string)>, c: char)
    requires Increasing(KeysOf(table))
    ensures Lookup(table, c).Some? <==> c in KeysOf(table)
    ensures forall i :: 0 <= i < |table| && table[i].0 == c ==> Lookup(table, c) == Some(table[i].1)
  {
    forall i | 0 <= i < |table| && table[i].0 == c
      ensures Lookup(table, c) == Some(table[i].1)
    {
      SearchFinds(table, c, 0, |table|, i);
    }
    if c in KeysOf(table) {
      var i :| 0 <= i < |table| && KeysOf(table)[i] == c;
      SearchFinds(table, c, 0, |table|, i);
    }
  }

  /** Looking a character up in the generated table gives its collected codes, shortest first, or nothing for an unmapped one. */
  lemma GeneratedLookup(lines: seq<string>, c: char)
    ensures Lookup(Table(lines), c) ==
      if c in Parse(lines).codes then Some(CodeList(Parse(lines).codes[c])) else None
  {
    TableShape(lines);
    LookupIffKey(Table(lines), c);
    if c in Parse(lines).codes {
      var i :| 0 <= i < |Table(lines)| && KeysOf(Table(lines))[i] == c;
    }
  }
}
