// processChartData: the survey entries of one question are narrowed by the
// three dashboard filters, and the chart is titled by the question and
// subtitled by the filters in force.

module Charts {
  import opened Text

  /** One survey answer count, as the server delivers it. */
  datatype DataEntry = DataEntry(
    companySize: string,
    industry: string,
    quarter: string,
    responseValue: string,
    numResponses: real)

  /** A survey question: its text and its answer counts. */
  datatype Question = Question(question: string, data: seq<DataEntry>)

  /** The values selected in each filter dropdown; an empty list selects everything. */
  datatype FilterState = FilterState(companySize: seq<string>, industry: seq<string>, quarter: seq<string>)

  /** One dimension lets a value through: nothing is selected, or the value is. */
  predicate Admits(selected: seq<string>, v: string)
  {
    |selected| == 0 || v in selected
  }

  /** The filter callback: every dimension lets the entry through. */
  predicate Passes(filters: FilterState, e: DataEntry)
  {
    && Admits(filters.companySize, e.companySize)
    && Admits(filters.industry, e.industry)
    && Admits(filters.quarter, e.quarter)
  }

  /** `question.data.filter(...)`: the passing entries, in their original order. */
  function FilterEntries(filters: FilterState, data: seq<DataEntry>): (r: seq<DataEntry>)
    ensures |r| <= |data|
    ensures forall e :: e in r <==> e in data && Passes(filters, e)
  {
    if data == [] then []
    else
      var n := |data| - 1;
      assert data == data[..n] + [data[n]];
      FilterEntries(filters, data[..n]) + (if Passes(filters, data[n]) then [data[n]] else [])
  }

  /** The positions in `data` of the entries the filter keeps. */
  function KeptPositions(filters: FilterState, data: seq<DataEntry>): seq<nat>
  {
    if data == [] then []
    else
      var n := |data| - 1;
      KeptPositions(filters, data[..n]) + (if Passes(filters, data[n]) then [n] else [])
  }

  /** The kept positions lie in `data`, strictly increase, and are exactly the
      positions whose entries pass. */
  lemma {:induction false} KeptPositionsSpec(filters: FilterState, data: seq<DataEntry>)
    ensures forall k :: 0 <= k < |KeptPositions(filters, data)| ==> KeptPositions(filters, data)[k] < |data|
    ensures forall k, m :: 0 <= k < m < |KeptPositions(filters, data)| ==>
      KeptPositions(filters, data)[k] < KeptPositions(filters, data)[m]
    ensures forall i :: 0 <= i < |data| ==> (Passes(filters, data[i]) <==> i in KeptPositions(filters, data))
  {
    if data != [] {
      var n := |data| - 1;
      var pre := data[..n];
      KeptPositionsSpec(filters, pre);
      var idx := KeptPositions(filters, pre);
      var all := KeptPositions(filters, data);
      assert all == idx + (if Passes(filters, data[n]) then [n] else []);
      forall i | 0 <= i < |data|
        ensures Passes(filters, data[i]) <==> i in all
      {
        if i < n {
          assert data[i] == pre[i];
          assert n !in idx;
        }
      }
    }
  }

  /** The filtered entries are `data` read at the kept positions: together with
      `KeptPositionsSpec`, an order-preserving subsequence that drops exactly the
      failing entries. */
  lemma {:induction false} FilterSubsequence(filters: FilterState, data: seq<DataEntry>)
    ensures |KeptPositions(filters, data)| == |FilterEntries(filters, data)|
    ensures forall k :: 0 <= k < |KeptPositions(filters, data)| ==>
      KeptPositions(filters, data)[k] < |data| &&
      FilterEntries(filters, data)[k] == data[KeptPositions(filters, data)[k]]
  {
    KeptPositionsSpec(filters, data);
    if data != [] {
      var n := |data| - 1;
      var pre := data[..n];
      FilterSubsequence(filters, pre);
      var idx := KeptPositions(filters, pre);
      var r := FilterEntries(filters, pre);
      assert KeptPositions(filters, data) == idx + (if Passes(filters, data[n]) then [n] else []);
      assert FilterEntries(filters, data) == r + (if Passes(filters, data[n]) then [data[n]] else []);
      forall k | 0 <= k < |idx|
        ensures data[idx[k]] == r[k]
      {
        assert data[idx[k]] == pre[idx[k]];
      }
    }
  }

  /** With nothing selected in any dropdown, every entry is kept. */
  lemma {:induction false} NoFiltersKeepsAll(filters: FilterState, data: seq<DataEntry>)
    requires filters.companySize == [] && filters.industry == [] && filters.quarter == []
    ensures FilterEntries(filters, data) == data
  {
    if data != [] {
      var n := |data| - 1;
      NoFiltersKeepsAll(filters, data[..n]);
      assert data == data[..n] + [data[n]];
    }
  }

  /** Selecting one more value in a dropdown never drops an entry that was kept. */
  lemma {:induction false} WideningKeeps(filters: FilterState, v: string, data: seq<DataEntry>)
    requires filters.companySize != []
    ensures forall e :: e in FilterEntries(filters, data) ==>
      e in FilterEntries(filters.(companySize := filters.companySize + [v]), data)
  {
    var wider := filters.(companySize := filters.companySize + [v]);
    forall e | e in FilterEntries(filters, data)
      ensures e in FilterEntries(wider, data)
    {
      assert e.companySize in filters.companySize;
      assert e.companySize in wider.companySize;
    }
  }

  /** The selected lists that are not empty, in the order companySize,
      industry, quarter. */
  function Selected(filters: FilterState): (r: seq<seq<string>>)
    ensures forall j :: 0 <= j < |r| ==> r[j] != []
    ensures |r| == 0 <==> filters.companySize == [] && filters.industry == [] && filters.quarter == []
  {
    var all := [filters.companySize, filters.industry, filters.quarter];
    (if all[0] != [] then [all[0]] else []) +
    (if all[1] != [] then [all[1]] else []) +
    (if all[2] != [] then [all[2]] else [])
  }

  /** The subtitle the filters call for: `'All Data'` when nothing is selected,
      otherwise `Filtered: ` and each selected list joined with `', '`, the
      lists separated by `' | '`. */
  function Subtitle(filters: FilterState): string
  {
    var lists := Selected(filters);
    if |lists| == 0 then "All Data"
    else "Filtered: " + Join(seq(|lists|, j requires 0 <= j < |lists| => Join(lists[j], ", ")), " | ")
  }

  /** The subtitle reads `All Data` exactly when no dropdown has a selection;
      otherwise it begins with `Filtered: `. */
  lemma SubtitleMeaning(filters: FilterState)
    ensures Subtitle(filters) == "All Data" <==>
      filters.companySize == [] && filters.industry == [] && filters.quarter == []
    ensures Subtitle(filters) != "All Data" ==> Subtitle(filters)[..10] == "Filtered: "
  {
    if Selected(filters) != [] {
      assert Subtitle(filters)[0] == 'F';
    }
  }

  /** A selection in one dropdown alone is shown as that list joined with `', '`. */
  lemma SubtitleSingleList(filters: FilterState)
    requires filters.companySize != [] && filters.industry == [] && filters.quarter == []
    ensures Subtitle(filters) == "Filtered: " + Join(filters.companySize, ", ")
  {
    assert Selected(filters) == [filters.companySize];
  }

  /** `processChartData` without the chart series: the kept entries, the
      title and the subtitle. */
  method ProcessChartData(question: Question, filters: FilterState)
    returns (filtered: seq<DataEntry>, title: string, subtitle: string)
    ensures filtered == FilterEntries(filters, question.data)
    ensures title == question.question
    ensures subtitle == Subtitle(filters)
  {
    filtered := FilterEntries(filters, question.data);

    var parts: seq<string> := [];
    if |filters.companySize| > 0 { parts := parts + [Join(filters.companySize, ", ")]; }
    if |filters.industry| > 0 { parts := parts + [Join(filters.industry, ", ")]; }
    if |filters.quarter| > 0 { parts := parts + [Join(filters.quarter, ", ")]; }

    subtitle := if |parts| > 0 then "Filtered: " + Join(parts, " | ") else "All Data";
    title := question.question;

    ghost var lists := Selected(filters);
    assert parts == seq(|lists|, j requires 0 <= j < |lists| => Join(lists[j], ", "));
  }
}
