/**
 * The decisions of `save_results` in src/pubmed_fetcher/main.py: whether a
 * file is written, in which format and under which name. The serialisation
 * itself is not modelled; the result is the write that would happen.
 */
module Report {
  import opened Text
  import opened Pipeline

  /** The write `save_results` performs, or why it performs none. */
  datatype Action = NoData | WriteCsv(path: string) | WriteJson(path: string) | InvalidFormat

  const Csv: string := ".csv"
  const Json: string := ".json"

  /** `filename.replace(".csv", ".json")`. */
  function JsonFileName(filename: string): (r: string)
    ensures !Contains(r, Csv)
    ensures !Contains(filename, Csv) ==> r == filename
  {
    var r := ReplaceAll(filename, Csv, Json);
    NoCsvAfterReplace(filename);
    assert !Contains(filename, Csv) ==> r == filename by {
      if !Contains(filename, Csv) { ReplaceAllAbsent(filename, Csv, Json); }
    }
    r
  }

  /** `save_results`: no write for an empty result list, then the format decides. */
  function SaveAction(results: seq<Row>, filename: string, outputFormat: string): (a: Action)
    ensures a == NoData <==> results == []
    ensures a == InvalidFormat <==> results != [] && outputFormat != "csv" && outputFormat != "json"
    ensures a.WriteCsv? <==> results != [] && outputFormat == "csv"
    ensures a.WriteCsv? ==> a.path == filename
    ensures a.WriteJson? ==> a.path == JsonFileName(filename) && !Contains(a.path, Csv)
  {
    if results == [] then NoData
    else if outputFormat == "csv" then WriteCsv(filename)
    else if outputFormat == "json" then WriteJson(JsonFileName(filename))
    else InvalidFormat
  }

  /** A replacement output starts with a dot-free `t` only where the input does. */
  lemma {:induction false} StartsWithBeforeReplace(s: string, t: string)
    requires forall i :: 0 <= i < |t| ==> t[i] != '.'
    ensures StartsWith(ReplaceAll(s, Csv, Json), t) ==> StartsWith(s, t)
    decreases |s|
  {
    var out := ReplaceAll(s, Csv, Json);
    if |s| >= |Csv| && t != [] {
      if s[..|Csv|] == Csv {
        assert out[0] == '.';
      } else {
        var rest := ReplaceAll(s[1..], Csv, Json);
        assert out == [s[0]] + rest;
        StartsWithBeforeReplace(s[1..], t[1..]);
        if StartsWith(out, t) {
          assert rest[..|t| - 1] == out[1..|t|];
          assert s[..|t|] == [s[0]] + s[1..][..|t| - 1];
        }
      }
    }
  }

  /** After the replacement no ".csv" is left: the new text cannot form one. */
  lemma {:induction false} NoCsvAfterReplace(s: string)
    ensures !Contains(ReplaceAll(s, Csv, Json), Csv)
    decreases |s|
  {
    if |s| >= |Csv| {
      if s[..|Csv|] == Csv {
        NoCsvAfterReplace(s[|Csv|..]);
        NoCsvAfterJson(ReplaceAll(s[|Csv|..], Csv, Json));
      } else {
        var rest := ReplaceAll(s[1..], Csv, Json);
        NoCsvAfterReplace(s[1..]);
        StartsWithBeforeReplace(s[1..], "csv");
        assert s[..|Csv|] == [s[0]] + s[1..][..3];
        NoCsvAfterChar(s[0], rest);
        assert ReplaceAll(s, Csv, Json) == [s[0]] + rest;
      }
    }
  }

  /** ".json" in front of a text without ".csv" does not create one. */
  lemma NoCsvAfterJson(rest: string)
    requires !Contains(rest, Csv)
    ensures !Contains(Json + rest, Csv)
  {
    var out := Json + rest;
    forall i | 0 <= i <= |out| - |Csv| ensures !OccursAt(out, Csv, i) {
      if i == 0 {
        assert out[1] == 'j';
      } else if i < |Json| {
        assert out[i] == Json[i];
      } else {
        assert out[i..i + |Csv|] == rest[i - |Json|..i - |Json| + |Csv|];
        assert !OccursAt(rest, Csv, i - |Json|);
      }
    }
  }

  /** A character in front of a text without ".csv" creates one only as '.' before "csv". */
  lemma NoCsvAfterChar(c: char, rest: string)
    requires !Contains(rest, Csv)
    requires c != '.' || !StartsWith(rest, "csv")
    ensures !Contains([c] + rest, Csv)
  {
    var out := [c] + rest;
    forall i | 0 <= i <= |out| - |Csv| ensures !OccursAt(out, Csv, i) {
      if i == 0 {
        assert out[..|Csv|] == [c] + rest[..3];
        if c != '.' {
          assert out[..|Csv|][0] != Csv[0];
        } else {
          assert rest[..3] != "csv";
          assert out[..|Csv|][1..] == rest[..3];
          assert Csv[1..] == "csv";
        }
      } else {
        assert out[i..i + |Csv|] == rest[i - 1..i - 1 + |Csv|];
        assert !OccursAt(rest, Csv, i - 1);
      }
    }
  }

  /** A name ending in ".csv" gets that suffix turned into ".json", with the rest replaced as well. */
  lemma {:induction false} CsvSuffixBecomesJson(stem: string)
    ensures JsonFileName(stem + Csv) == JsonFileName(stem) + Json
    decreases |stem|
  {
    var s := stem + Csv;
    if stem == [] {
      assert s == Csv;
      assert s[|Csv|..] == [];
    } else if |stem| >= |Csv| && stem[..|Csv|] == Csv {
      assert s[..|Csv|] == Csv;
      assert s[|Csv|..] == stem[|Csv|..] + Csv;
      CsvSuffixBecomesJson(stem[|Csv|..]);
    } else {
      assert s[..|Csv|] != Csv by {
        if |stem| < |Csv| {
          assert s[|stem|] == '.';
          assert Csv[|stem|] != '.';
        } else {
          assert s[..|Csv|] == stem[..|Csv|];
        }
      }
      assert s[1..] == stem[1..] + Csv;
      CsvSuffixBecomesJson(stem[1..]);
    }
  }

  /** Deriving the JSON name twice changes nothing more. */
  lemma JsonFileNameIdempotent(filename: string)
    ensures JsonFileName(JsonFileName(filename)) == JsonFileName(filename)
  {
  }

  /** A stem free of ".csv" keeps its text and only the suffix changes. */
  lemma CsvSuffixOnly(stem: string)
    requires !Contains(stem, Csv)
    ensures JsonFileName(stem + Csv) == stem + Json
  {
    CsvSuffixBecomesJson(stem);
  }

  /** The default name "results.csv" becomes "results.json". */
  lemma DefaultJsonFileName()
    ensures JsonFileName("results.csv") == "results.json"
  {
    var stem := "results";
    assert !Contains(stem, Csv) by {
      forall i | 0 <= i <= |stem| - |Csv| ensures !OccursAt(stem, Csv, i) {
        assert stem[i..i + |Csv|][0] == stem[i] != '.';
      }
    }
    CsvSuffixOnly(stem);
    assert stem + Csv == "results.csv";
    assert stem + Json == "results.json";
  }

  /** Every occurrence is replaced, not only the suffix: "a.csv.csv" becomes "a.json.json". */
  lemma EveryOccurrenceReplaced(stem: string)
    requires !Contains(stem, Csv)
    ensures JsonFileName(stem + Csv + Csv) == stem + Json + Json
  {
    CsvSuffixBecomesJson(stem + Csv);
    CsvSuffixOnly(stem);
  }

  /** An unknown format such as "xml" writes nothing, and neither does an empty list. */
  lemma NoWriteCases(results: seq<Row>, filename: string, outputFormat: string)
    ensures SaveAction([], filename, outputFormat) == NoData
    ensures results != [] ==> SaveAction(results, filename, "xml") == InvalidFormat
  {
  }
}
