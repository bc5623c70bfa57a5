/** CsvMap: access to table cells by stripped column title. */
module CsvTable {
  import opened Common

  datatype Result<+T> = Ok(value: T) | Err

  /** isalnum, or one of the two other characters that survive. */
  predicate Kept(c: char) {
    'a' <= c <= 'z' || 'A' <= c <= 'Z' || '0' <= c <= '9' || c == '_' || c == '.'
  }

  /** _ci_strip. */
  function CiStrip(s: string): string {
    if s == [] then [] else (if Kept(s[0]) then [Lower(s[0])] else []) + CiStrip(s[1..])
  }

  predicate Plain(s: string) {
    forall c :: c in s ==> Kept(c) && Lower(c) == c
  }

  lemma {:induction false} PlainIsStripped(s: string)
    requires Plain(s)
    ensures CiStrip(s) == s
  {
    if s != [] {
      assert s[0] in s && forall c :: c in s[1..] ==> c in s;
      PlainIsStripped(s[1..]);
    }
  }

  lemma {:induction false} StrippedIsPlain(s: string)
    ensures Plain(CiStrip(s))
  {
    if s != [] {
      StrippedIsPlain(s[1..]);
    }
  }

  /** Stripping twice is stripping once. */
  lemma StripIsIdempotent(s: string)
    ensures CiStrip(CiStrip(s)) == CiStrip(s)
  {
    StrippedIsPlain(s);
    PlainIsStripped(CiStrip(s));
  }

  lemma StripHead(c: char, t: string)
    ensures CiStrip([c] + t) == (if Kept(c) then [Lower(c)] else []) + CiStrip(t)
  {
    assert ([c] + t)[1..] == t;
  }

  /** Stripping works character by character ... */
  lemma {:induction false} StripJoins(s: string, t: string)
    ensures CiStrip(s + t) == CiStrip(s) + CiStrip(t)
  {
    if s == [] {
      assert s + t == t;
    } else {
      StripJoins(s[1..], t);
      StripHead(s[0], s[1..] + t);
      assert s + t == [s[0]] + (s[1..] + t);
    }
  }

  /** ... and keeps letters, in lower case, digits, the underscore and the dot. */
  lemma StripOfOne(c: char)
    ensures CiStrip([c]) ==
            if 'A' <= c <= 'Z' then [(c as int - 'A' as int + 'a' as int) as char]
            else if 'a' <= c <= 'z' || '0' <= c <= '9' || c in "_." then [c] else []
  {
    assert CiStrip([c][1..]) == [];
  }

  /** Titles that differ in letter case only are the same title. */
  lemma {:induction false} StripIgnoresCase(s: string, t: string)
    requires SameUpToCase(s, t)
    ensures CiStrip(s) == CiStrip(t)
  {
    if s != [] {
      LowerMeans(s[0], t[0]);
      StripIgnoresCase(s[1..], t[1..]);
    }
  }

  ghost predicate DistinctTitles(titles: seq<string>) {
    forall i, j :: 0 <= i < j < |titles| ==> CiStrip(titles[i]) != CiStrip(titles[j])
  }

  /** index maps the stripped titles to their columns, and nothing else to anything. */
  ghost predicate IsIndex(index: map<string, nat>, titles: seq<string>) {
    && (forall i :: 0 <= i < |titles| ==> CiStrip(titles[i]) in index && index[CiStrip(titles[i])] == i)
    && (forall t :: t in index ==> index[t] < |titles| && CiStrip(titles[index[t]]) == t)
  }

  lemma OneMoreTitle(index: map<string, nat>, titles: seq<string>, i: nat)
    requires i < |titles| && DistinctTitles(titles[..i]) && IsIndex(index, titles[..i])
    requires CiStrip(titles[i]) !in index
    ensures DistinctTitles(titles[..i + 1]) && IsIndex(index[CiStrip(titles[i]) := i], titles[..i + 1])
  {
    assert titles[..i + 1] == titles[..i] + [titles[i]];
  }

  class CsvMap {
    const data: seq<seq<string>>
    var titleToIndex: map<string, nat>

    constructor (data: seq<seq<string>>)
      ensures this.data == data && titleToIndex == map[]
    {
      this.data := data;
      titleToIndex := map[];
    }

    /** deserialize: fails on an empty table and, exactly, when two titles are equal after stripping. */
    method Deserialize() returns (ok: bool)
      requires titleToIndex == map[]
      modifies this
      ensures ok <==> data != [] && DistinctTitles(data[0])
      ensures ok ==> IsIndex(titleToIndex, data[0])
      ensures !ok && data != [] ==> exists n :: 0 <= n < |data[0]| && IsIndex(titleToIndex, data[0][..n])
      ensures data == [] ==> titleToIndex == map[]
    {
      if |data| == 0 {
        return false;
      }
      for i := 0 to |data[0]|
        invariant DistinctTitles(data[0][..i]) && IsIndex(titleToIndex, data[0][..i])
      {
        var title := CiStrip(data[0][i]);
        if title in titleToIndex {
          assert CiStrip(data[0][titleToIndex[title]]) == title;
          return false;
        }
        OneMoreTitle(titleToIndex, data[0], i);
        titleToIndex := titleToIndex[title := i];
      }
      assert data[0][..|data[0]|] == data[0];
      return true;
    }

    /** get: the errors are the two out_of_range cases and a row that is too short. */
    function Get(row: nat, titleName: string): Result<string>
      reads this
    {
      if row >= |data| then Err
      else
        var title := CiStrip(titleName);
        if title !in titleToIndex then Err
        else
          var col := titleToIndex[title];
          if col >= |data[row]| then Err else Ok(data[row][col])
    }

    /** getTitles, and the copy of one row that sanitize_row_ext_names starts from. */
    function Cells(row: nat): map<string, string>
      requires row < |data| && forall t :: t in titleToIndex ==> titleToIndex[t] < |data[row]|
      reads this
    {
      map t | t in titleToIndex :: data[row][titleToIndex[t]]
    }
  }

  /** After a successful deserialize, get finds exactly the cell of the column whose stripped title is asked for. */
  lemma GetFindsTheColumn(cm: CsvMap, row: nat, titleName: string, value: string)
    requires cm.data != [] && IsIndex(cm.titleToIndex, cm.data[0])
    requires row < |cm.data| && |cm.data[row]| == |cm.data[0]|
    ensures cm.Get(row, titleName) == Ok(value) <==>
            exists i :: 0 <= i < |cm.data[0]| && CiStrip(cm.data[0][i]) == CiStrip(titleName)
              && cm.data[row][i] == value
    ensures cm.Get(row, titleName) == Err <==>
            forall i :: 0 <= i < |cm.data[0]| ==> CiStrip(cm.data[0][i]) != CiStrip(titleName)
    ensures CiStrip(titleName) in cm.Cells(row) <==> cm.Get(row, titleName).Ok?
    ensures cm.Get(row, titleName).Ok? ==> cm.Get(row, titleName).value == cm.Cells(row)[CiStrip(titleName)]
  {
  }

  // ---------- numbered titles ----------

  function Digit(d: nat): char
    requires d < 10
  {
    (('0' as int) + d) as char
  }

  /** std::to_string. */
  function Decimal(n: nat): string {
    if n < 10 then [Digit(n)] else Decimal(n / 10) + [Digit(n % 10)]
  }

  function Numbered(prefix: string, n: nat): string {
    prefix + Decimal(n)
  }

  lemma {:induction false} DecimalIsPlain(n: nat)
    ensures Plain(Decimal(n)) && Decimal(n) != []
  {
    if n >= 10 {
      DecimalIsPlain(n / 10);
    }
  }

  /** The decimal form reads back as the number, and has no leading zero. */
  lemma {:induction false} DecimalReadsBack(n: nat)
    ensures IsDigits(Decimal(n)) && ValueOf(Decimal(n)) == n
    ensures Decimal(n) != [] && (n > 0 ==> Decimal(n)[0] != '0') && (n == 0 ==> Decimal(n) == "0")
  {
    if n >= 10 {
      DecimalReadsBack(n / 10);
      var s := Decimal(n);
      assert s[..|s| - 1] == Decimal(n / 10) && s[|s| - 1] == Digit(n % 10);
    } else {
      assert Decimal(n)[..0] == [];
    }
  }

  lemma {:induction false} DecimalIsInjective(m: nat, n: nat)
    ensures Decimal(m) == Decimal(n) <==> m == n
  {
    DecimalIsPlain(m / 10);
    DecimalIsPlain(n / 10);
    if Decimal(m) == Decimal(n) {
      var s := Decimal(m);
      assert s[|s| - 1] == Digit(m % 10) == Digit(n % 10);
      if m >= 10 && n >= 10 {
        assert s[..|s| - 1] == Decimal(m / 10) == Decimal(n / 10);
        DecimalIsInjective(m / 10, n / 10);
      }
    }
  }

  lemma NumberedTitles(prefix: string, m: nat, n: nat)
    requires Plain(prefix)
    ensures CiStrip(Numbered(prefix, n)) == Numbered(prefix, n)
    ensures Numbered(prefix, m) == Numbered(prefix, n) <==> m == n
  {
    DecimalIsPlain(n);
    PlainIsStripped(Numbered(prefix, n));
    DecimalIsInjective(m, n);
    if Numbered(prefix, m) == Numbered(prefix, n) {
      assert Decimal(m) == Numbered(prefix, m)[|prefix|..] == Numbered(prefix, n)[|prefix|..] == Decimal(n);
    }
  }

  /** The titles prefix.1 to prefix.n are n different keys. */
  lemma {:induction false} NumberedKeys(prefix: string, n: nat, keys: set<string>)
    requires Plain(prefix) && forall k :: 1 <= k <= n ==> Numbered(prefix, k) in keys
    ensures n <= |keys|
  {
    if n > 0 {
      var last := Numbered(prefix, n);
      forall k | 1 <= k <= n - 1
        ensures Numbered(prefix, k) in keys - {last}
      {
        NumberedTitles(prefix, k, n);
      }
      NumberedKeys(prefix, n - 1, keys - {last});
    }
  }
}
