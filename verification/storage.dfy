/** The browser's `localStorage` as the app uses it: one key holding the JSON
    list of exam results and one `exam_taken_<number>` key per collegiate
    number that has sat the official exam. The results list is kept already
    decoded; every other key is a plain string item. */
module Storage {
  import opened Types
  import opened Strings

  const ResultsKey := "exam_results"
  const TakenPrefix := "exam_taken_"
  /** The value written to mark a number as having sat the official exam. */
  const TakenMark := "true"

  /** `results` is the decoded value under `ResultsKey`, if that key is set;
      `items` holds every other key. */
  datatype Store = Store(results: Option<seq<ExamResult>>, items: map<string, string>)

  /** The results key lives in `results`, never among the plain items. */
  predicate WellFormed(st: Store) {
    ResultsKey !in st.items
  }

  /** The registry key of a collegiate number, exactly as typed (untrimmed). */
  function TakenKey(number: string): (k: string)
    ensures StartsWith(k, TakenPrefix) && k[|TakenPrefix|..] == number
    ensures k != ResultsKey
  {
    var k := TakenPrefix + number;
    assert k[5] != ResultsKey[5];
    k
  }

  /** Different numbers have different registry keys. */
  lemma TakenKeyInjective(a: string, b: string)
    ensures TakenKey(a) == TakenKey(b) <==> a == b
  {
    if TakenKey(a) == TakenKey(b) {
      assert a == TakenKey(a)[|TakenPrefix|..];
    }
  }

  /** `localStorage.getItem(key)` is truthy: set and not the empty string.
      Only a set key counts, and the mark the app writes always counts. */
  predicate HasTaken(st: Store, number: string)
    ensures HasTaken(st, number) ==> TakenKey(number) in st.items
    ensures TakenKey(number) in st.items && st.items[TakenKey(number)] == TakenMark ==> HasTaken(st, number)
  {
    TakenKey(number) in st.items && st.items[TakenKey(number)] != ""
  }

  /** `JSON.parse(localStorage.getItem('exam_results') || '[]')`. */
  function StoredResults(st: Store): (rs: seq<ExamResult>)
    ensures st.results.None? ==> rs == []
    ensures st.results.Some? ==> rs == st.results.value
  {
    st.results.GetOr([])
  }

  /** Every key present, as `Object.keys(localStorage)` lists them. */
  function Keys(st: Store): (ks: set<string>)
    ensures forall k :: k in ks <==> k in st.items || (k == ResultsKey && st.results.Some?)
  {
    st.items.Keys + (if st.results.Some? then {ResultsKey} else {})
  }
}
