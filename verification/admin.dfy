/** The administrator's panel: the stored results, a search box that filters
    them, and a button that wipes every record and every official-attempt
    mark. `toLowerCase` is a parameter `lower`, since the model has no
    Unicode case tables. */
module AdminPanel {
  import opened Types
  import opened Strings
  import opened Storage

  /** The panel's own state: the list it shows and the search term. */
  datatype Panel = Panel(results: seq<ExamResult>, searchTerm: string)

  /** Mounting the panel reads the stored list once; with nothing stored it
      shows an empty list. The search box starts empty. */
  function Load(st: Store): (p: Panel)
    ensures p.searchTerm == []
    ensures p.results == StoredResults(st)
  {
    match st.results
    case Some(rs) => Panel(rs, "")
    case None => Panel([], "")
  }

  /** A record matches when its name contains the term ignoring case, or its
      collegiate number contains the term exactly as typed. A term typed as
      part of the number always matches, and so does a term that lowercases
      to nothing. */
  predicate Matches(r: ExamResult, term: string, lower: string -> string)
    ensures Includes(r.collegiateNumber, term) ==> Matches(r, term, lower)
    ensures lower(term) == [] ==> Matches(r, term, lower)
  {
    Includes(lower(r.fullName), lower(term)) || Includes(r.collegiateNumber, term)
  }

  /** The rows shown: the matching records, in stored order. */
  function Filtered(rs: seq<ExamResult>, term: string, lower: string -> string): (r: seq<ExamResult>)
    ensures |r| <= |rs|
    ensures forall x :: x in r <==> x in rs && Matches(x, term, lower)
  {
    if |rs| == 0 then []
    else (if Matches(rs[0], term, lower) then [rs[0]] else []) + Filtered(rs[1..], term, lower)
  }

  /** Filtering a concatenation filters each part; with the singleton case
      this pins the result down as the ordered subsequence of matches. */
  lemma {:induction false} FilteredConcat(a: seq<ExamResult>, b: seq<ExamResult>, term: string, lower: string -> string)
    ensures Filtered(a + b, term, lower) == Filtered(a, term, lower) + Filtered(b, term, lower)
    decreases |a|
  {
    if |a| == 0 {
      assert a + b == b;
    } else {
      assert (a + b)[1..] == a[1..] + b;
      FilteredConcat(a[1..], b, term, lower);
    }
  }

  lemma FilteredSingleton(x: ExamResult, term: string, lower: string -> string)
    ensures Filtered([x], term, lower) == if Matches(x, term, lower) then [x] else []
  {
    assert [x][1..] == [];
  }

  /** An empty search box shows every record: every string includes "". */
  lemma {:induction false} EmptyTermKeepsAll(rs: seq<ExamResult>, lower: string -> string)
    requires lower([]) == []
    ensures Filtered(rs, [], lower) == rs
  {
    if |rs| > 0 {
      IncludesEmpty(rs[0].collegiateNumber);
      EmptyTermKeepsAll(rs[1..], lower);
    }
  }

  /** Two names that lower-case alike are found by the same terms. */
  lemma NameMatchIgnoresCase(r: ExamResult, name: string, term: string, lower: string -> string)
    requires lower(name) == lower(r.fullName)
    ensures Matches(r.(fullName := name), term, lower) <==> Matches(r, term, lower)
  {
  }

  /** An ASCII-only stand-in for `toLowerCase`, enough to show how the two
      fields differ: no capital A-Z is left, each capital becomes the same
      letter in small case, and every other character is kept. */
  function AsciiLower(s: string): (r: string)
    ensures |r| == |s|
    ensures forall i :: 0 <= i < |r| ==> !('A' <= r[i] <= 'Z')
    ensures forall i :: 0 <= i < |s| && !('A' <= s[i] <= 'Z') ==> r[i] == s[i]
    ensures forall i :: 0 <= i < |s| && 'A' <= s[i] <= 'Z' ==>
              'a' <= r[i] <= 'z' && r[i] as int - 'a' as int == s[i] as int - 'A' as int
  {
    seq(|s|, i requires 0 <= i < |s| => if 'A' <= s[i] <= 'Z' then (s[i] as int + 32) as char else s[i])
  }

  /** The number is compared case-sensitively while the name is not: the term
      "ab" finds a record named "ABEL" but not one numbered "AB12". */
  lemma NumberMatchIsCaseSensitive()
    ensures Matches(ExamResult("ABEL", "X1", 90, "", Official), "ab", AsciiLower)
    ensures !Matches(ExamResult("Eva", "AB12", 90, "", Official), "ab", AsciiLower)
  {
    assert AsciiLower("ABEL") == "abel";
    assert AsciiLower("ab") == "ab";
    assert StartsWith("abel", "ab");
    assert AsciiLower("Eva") == "eva";
    assert !Includes("eva", "ab") by {
      assert "eva"[1..] == "va" && "va"[1..] == "a" && "a"[1..] == [];
      assert "eva"[..2][1] != "ab"[1] && "va"[..2][0] != "ab"[0];
      assert !Includes("a", "ab") && !Includes("va", "ab");
    }
    assert !Includes("AB12", "ab") by {
      assert "AB12"[1..] == "B12" && "B12"[1..] == "12" && "12"[1..] == "2" && "2"[1..] == [];
      assert "AB12"[..2][0] != "ab"[0] && "B12"[..2][0] != "ab"[0] && "12"[..2][0] != "ab"[0];
      assert !Includes("2", "ab") && !Includes("12", "ab") && !Includes("B12", "ab");
    }
  }

  /** A key the wipe removes: the results list or an official-attempt mark. */
  predicate Wiped(key: string) {
    key == ResultsKey || StartsWith(key, TakenPrefix)
  }

  /** `handleClearData` after the user confirms: the results key and every
      `exam_taken_` key are removed and nothing else is touched. */
  function ClearStore(st: Store): (r: Store)
    ensures r.results == None
    ensures forall k :: k in r.items <==> k in st.items && !Wiped(k)
    ensures forall k :: k in r.items ==> r.items[k] == st.items[k]
  {
    Store(None, map k | k in st.items && !Wiped(k) :: st.items[k])
  }

  /** The button: a declined confirmation changes nothing; a confirmed one
      wipes the store and empties the list on screen. */
  function Clear(st: Store, p: Panel, confirmed: bool): (r: (Store, Panel))
    ensures !confirmed ==> r == (st, p)
    ensures confirmed ==> r.0 == ClearStore(st) && r.1 == p.(results := [])
  {
    if confirmed then (ClearStore(st), p.(results := [])) else (st, p)
  }

  /** After a wipe the keys left are exactly the keys that were not wiped. */
  lemma ClearKeepsOnlyOthers(st: Store)
    ensures forall k :: k in Keys(ClearStore(st)) <==> k in Keys(st) && !Wiped(k)
  {
  }

  /** After a wipe no collegiate number counts as having sat the official
      exam, and the stored list reads as empty. */
  lemma ClearAllowsRetake(st: Store, number: string)
    ensures !HasTaken(ClearStore(st), number)
    ensures StoredResults(ClearStore(st)) == []
  {
    assert Wiped(TakenKey(number));
  }

  /** After a confirmed wipe the list on screen is what a fresh mount of the
      panel would read from the wiped store: nothing. */
  lemma ClearAgreesWithLoad(st: Store, p: Panel)
    ensures Load(Clear(st, p, true).0).results == Clear(st, p, true).1.results == []
  {
  }

  /** Wiping twice is the same as wiping once. */
  lemma ClearIdempotent(st: Store)
    ensures ClearStore(ClearStore(st)) == ClearStore(st)
  {
  }
}
