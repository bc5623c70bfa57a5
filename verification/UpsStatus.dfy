/** UPS status words ("OL CHRG") and their bitmaps. */
module UpsStatus {
  import opened Common

  /** The lookup table; entry i stands for bit i. The 0-valued end mark is not an entry. */
  const NAMES: seq<string> := ["CAL", "TRIM", "BOOST", "OL", "OB", "OVER", "LB", "RB", "BYPASS", "OFF", "CHRG",
                               "DISCHRG", "HB", "FSD"]

  type CString = s: string | '\0' !in s

  /** A uint16_t bitmap, as the set of its bits: | is union, & intersection, and 1 << i is {i}. */
  type Bitmap = set<nat>

  type Table = seq<string>

  /** strncasecmp(name, word, strlen(name)) == 0. */
  predicate Matches(name: string, word: string) {
    |name| <= |word| && forall k :: 0 <= k < |name| ==> Lower(name[k]) == Lower(word[k])
  }

  /** The table from entry i on: the bit of the first name the word begins with, none when there is no such name. */
  function Lookup(names: Table, word: string, i: nat): Bitmap
    requires i <= |names|
    decreases |names| - i
  {
    if i == |names| then {} else if Matches(names[i], word) then {i} else Lookup(names, word, i + 1)
  }

  function IndexOf(s: string, c: char): (k: nat)
    ensures k <= |s| && c !in s[..k]
    ensures k < |s| ==> s[k] == c
  {
    if s == [] then 0
    else if s[0] == c then 0
    else
      var k := IndexOf(s[1..], c);
      assert s[..k + 1] == [s[0]] + s[1..][..k];
      k + 1
  }

  /** The OR over the words between spaces. */
  function Parsed(names: Table, s: string): Bitmap {
    var k := IndexOf(s, ' ');
    if k == |s| then Lookup(names, s, 0) else Lookup(names, s[..k], 0) + Parsed(names, s[k + 1..])
  }

  function Appended(r: string, name: string): string {
    (if r == "" then "" else r + " ") + name
  }

  /** The names of the lowest n bits that are set, separated by spaces. */
  function Printed(names: Table, status: Bitmap, n: nat): string
    requires n <= |names|
  {
    if n == 0 then ""
    else
      var r := Printed(names, status, n - 1);
      if n - 1 in status then Appended(r, names[n - 1]) else r
  }

  method SingleStatusToInt(names: Table, word: string) returns (r: Bitmap)
    ensures r == Lookup(names, word, 0)
  {
    var i := 0;
    while i < |names|
      invariant 0 <= i <= |names|
      invariant Lookup(names, word, 0) == Lookup(names, word, i)
    {
      if Matches(names[i], word) {
        return {i};
      }
      i := i + 1;
    }
    return {};
  }

  /** strchr from position b: where c stands, or the terminating NUL. */
  method Find(buff: array<char>, b: nat, c: char, ghost end: nat) returns (e: nat)
    requires b <= end < buff.Length && buff[end] == '\0' && c != '\0'
    requires forall k :: b <= k < end ==> buff[k] != '\0'
    ensures e == b + IndexOf(buff[b..end], c)
  {
    e := b;
    while buff[e] != '\0' && buff[e] != c
      invariant b <= e <= end
      invariant forall k :: b <= k < e ==> buff[k] != c
      decreases end - e
    {
      e := e + 1;
    }
    FirstIs(buff[b..end], c, e - b);
  }

  lemma {:induction false} FirstIs(s: string, c: char, k: nat)
    requires k <= |s| && (k < |s| ==> s[k] == c) && forall i :: 0 <= i < k ==> s[i] != c
    ensures IndexOf(s, c) == k
  {
    if k > 0 {
      FirstIs(s[1..], c, k - 1);
    }
  }

  /** The buffer from b on is still the text with its terminating NUL. */
  ghost predicate Untouched(buff: seq<char>, status: CString, b: nat) {
    |buff| == |status| + 1 && b <= |status| && buff[b..] == status[b..] + ['\0']
  }

  lemma UntouchedFrom(buff: seq<char>, status: CString, b: nat)
    requires Untouched(buff, status, b)
    ensures buff[|status|] == '\0' && buff[b..|status|] == status[b..]
    ensures forall k :: b <= k < |status| ==> buff[k] == status[k] != '\0'
  {
    forall k | b <= k < |status|
      ensures buff[k] == status[k]
    {
      assert buff[k] == buff[b..][k - b];
    }
    assert buff[|status|] == buff[b..][|status| - b];
  }

  /** The rest of the text splits at the space found at e; behind it the buffer is untouched. */
  lemma Cut(names: Table, buff: seq<char>, status: CString, b: nat, e: nat)
    requires Untouched(buff, status, b) && e == b + IndexOf(status[b..], ' ')
    ensures e <= |status| && buff[b..e] == status[b..e]
    ensures e < |status| ==> Untouched(buff[e := '\0'], status, e + 1) && buff[e := '\0'][b..e] == buff[b..e]
    ensures Parsed(names, status[b..]) ==
            Lookup(names, status[b..e], 0) + if e < |status| then Parsed(names, status[e + 1..]) else {}
  {
    UntouchedFrom(buff, status, b);
    assert buff[b..e] == status[b..e];
    assert status[b..e] == status[b..][..e - b];
    if e < |status| {
      assert status[b..][e - b + 1..] == status[e + 1..];
      assert buff[e := '\0'][e + 1..] == buff[e + 1..] == buff[b..][e + 1 - b..];
    } else {
      assert status[b..][..e - b] == status[b..];
    }
  }

  /** Ends the word at b in place, and tells where it ends and whether another one follows. */
  method CutWord(names: Table, buff: array<char>, status: CString, b: nat) returns (e: nat, more: bool)
    requires Untouched(buff[..], status, b)
    modifies buff
    ensures b <= e <= |status| && more == (e < |status|) && buff[b..e] == status[b..e]
    ensures more ==> Untouched(buff[..], status, e + 1)
    ensures Parsed(names, status[b..]) ==
            Lookup(names, status[b..e], 0) + if more then Parsed(names, status[e + 1..]) else {}
  {
    ghost var was := buff[..];
    UntouchedFrom(was, status, b);
    e := Find(buff, b, ' ', |status|);
    Cut(names, was, status, b, e);
    more := buff[e] == ' ';
    assert buff[b..e] == was[b..e];
    if more {
      buff[e] := '\0';
      assert buff[..] == was[e := '\0'];
      assert buff[b..e] == was[e := '\0'][b..e];
    }
  }

  /** upsstatus_to_int: cut a copy of the text into words in place, and OR their bits together. */
  method ToInt(names: Table, status: CString) returns (r: Bitmap)
    ensures r == Parsed(names, status)
  {
    var text := status + ['\0'];
    var n := |status|;
    var buff := new char[n + 1](i requires 0 <= i < n + 1 => text[i]);
    assert buff[..] == text;
    assert status[0..] == status;
    r := {};
    var b := 0;
    var more := true;
    while more
      invariant more ==> Untouched(buff[..], status, b) && Parsed(names, status) == r + Parsed(names, status[b..])
      invariant !more ==> Parsed(names, status) == r
      decreases more, n - b
    {
      var e;
      e, more := CutWord(names, buff, status, b);
      // the word from b runs to the next NUL, which is now at e
      var bits := SingleStatusToInt(names, buff[b..e]);
      r := r + bits;
      b := e + 1;
    }
  }

  /** upsstatus_to_string. */
  method ToString(names: Table, status: Bitmap) returns (r: string)
    ensures r == Printed(names, status, |names|)
  {
    r := "";
    var bit := 0;
    for i := 0 to |names|
      invariant r == Printed(names, status, i) && bit == i
    {
      if bit in status {
        if |r| > 0 {
          r := r + " ";
        }
        r := r + names[i];
      }
      bit := bit + 1;
    }
  }

  // ---------- round trips, for any table of prefix-free words ----------

  ghost predicate PrefixFree(names: Table) {
    && (forall i :: 0 <= i < |names| ==> names[i] != "" && ' ' !in names[i])
    && (forall i, j :: 0 <= i < |names| && 0 <= j < |names| && i != j ==> !Matches(names[i], names[j]))
  }

  /** Joining two texts with a space ORs their bitmaps. */
  lemma {:induction false} ParseJoins(names: Table, a: string, b: string)
    ensures Parsed(names, a + " " + b) == Parsed(names, a) + Parsed(names, b)
    decreases |a|
  {
    var k := IndexOf(a, ' ');
    var s := a + " " + b;
    assert forall i :: 0 <= i < k ==> a[..k][i] == a[i] == s[i] != ' ';
    FirstIs(s, ' ', k);
    assert s[..k] == a[..k];
    if k < |a| {
      assert s[k + 1..] == a[k + 1..] + " " + b;
      ParseJoins(names, a[k + 1..], b);
    } else {
      assert a[..k] == a && s[k + 1..] == b;
    }
  }

  lemma {:induction false} NameIsFound(names: Table, i: nat, from: nat)
    requires PrefixFree(names) && from <= i < |names|
    ensures Lookup(names, names[i], from) == {i}
    decreases i - from
  {
    if from < i {
      NameIsFound(names, i, from + 1);
    }
  }

  lemma ParseName(names: Table, i: nat)
    requires PrefixFree(names) && i < |names|
    ensures Parsed(names, names[i]) == {i}
  {
    FirstIs(names[i], ' ', |names[i]|);
    NameIsFound(names, i, 0);
  }

  lemma {:induction false} NothingMatchesEmpty(names: Table, i: nat)
    requires PrefixFree(names) && i <= |names|
    ensures Lookup(names, "", i) == {}
    decreases |names| - i
  {
    if i < |names| {
      NothingMatchesEmpty(names, i + 1);
    }
  }

  /** Appending one more name to a text. */
  lemma ParseAppended(names: Table, r: string, i: nat)
    requires PrefixFree(names) && i < |names|
    ensures Parsed(names, Appended(r, names[i])) == Parsed(names, r) + {i}
  {
    ParseName(names, i);
    if r == "" {
      NothingMatchesEmpty(names, 0);
      assert "" + names[i] == names[i];
    } else {
      ParseJoins(names, r, names[i]);
    }
  }

  /** A name is matched by the words that begin with it, letter case aside. */
  lemma MatchesMeans(name: string, word: string)
    ensures Matches(name, word) <==> |name| <= |word| && SameUpToCase(name, word[..|name|])
  {
    forall k | 0 <= k < |name| && k < |word|
      ensures Lower(name[k]) == Lower(word[k]) <==> SameLetter(name[k], word[k])
    {
      LowerMeans(name[k], word[k]);
    }
  }

  lemma {:induction false} LookupMeans(names: Table, word: string, i: nat)
    requires PrefixFree(names) && i <= |names|
    ensures forall b: nat :: b in Lookup(names, word, i) <==> i <= b < |names| && Matches(names[b], word)
    decreases |names| - i
  {
    if i < |names| {
      LookupMeans(names, word, i + 1);
      if Matches(names[i], word) {
        forall b: nat | i < b < |names|
          ensures !Matches(names[b], word)
        {
          OneNameMatches(names, word, i, b);
        }
      }
    }
  }

  /** Two names cannot both begin one word. */
  lemma OneNameMatches(names: Table, word: string, i: nat, j: nat)
    requires PrefixFree(names) && i < |names| && j < |names| && i != j && Matches(names[i], word)
    ensures !Matches(names[j], word)
  {
    assert !Matches(names[i], names[j]) && !Matches(names[j], names[i]);
  }

  /** A single word sets the bit of the name it begins with, and no other; an unknown word sets none. */
  lemma WordMeans(names: Table, word: string)
    requires PrefixFree(names) && ' ' !in word
    ensures forall b: nat :: b in Parsed(names, word) <==>
                             b < |names| && |names[b]| <= |word| && SameUpToCase(names[b], word[..|names[b]|])
  {
    FirstIs(word, ' ', |word|);
    LookupMeans(names, word, 0);
    forall b: nat | b < |names|
      ensures Matches(names[b], word) <==> |names[b]| <= |word| && SameUpToCase(names[b], word[..|names[b]|])
    {
      MatchesMeans(names[b], word);
    }
  }

  lemma {:induction false} LookupIgnoresCase(names: Table, s: string, t: string, i: nat)
    requires SameUpToCase(s, t) && i <= |names|
    ensures Lookup(names, s, i) == Lookup(names, t, i)
    decreases |names| - i
  {
    if i < |names| {
      LookupIgnoresCase(names, s, t, i + 1);
      forall k | 0 <= k < |s|
        ensures Lower(s[k]) == Lower(t[k])
      {
        LowerMeans(s[k], t[k]);
      }
    }
  }

  /** Texts that differ in letter case only have the same bitmap. */
  lemma {:induction false} ParseIgnoresCase(names: Table, s: string, t: string)
    requires SameUpToCase(s, t)
    ensures Parsed(names, s) == Parsed(names, t)
    decreases |s|
  {
    var k := IndexOf(s, ' ');
    assert forall i :: 0 <= i < k ==> s[..k][i] == s[i] != ' ';
    FirstIs(t, ' ', k);
    LookupIgnoresCase(names, s[..k], t[..k], 0);
    if k < |s| {
      ParseIgnoresCase(names, s[k + 1..], t[k + 1..]);
    } else {
      assert s[..k] == s && t[..k] == t;
    }
  }

  /** A single bit prints as its name. */
  lemma {:induction false} PrintOne(names: Table, i: nat, n: nat)
    requires n <= |names|
    ensures Printed(names, {i}, n) == if i < n then names[i] else ""
    decreases n
  {
    if n > 0 {
      PrintOne(names, i, n - 1);
    }
  }

  function LowBits(status: Bitmap, n: nat): Bitmap {
    set b | b in status && b < n
  }

  /** Printing a bitmap and parsing the text gives the low bits back, one for each name. */
  lemma {:induction false} PrintParse(names: Table, status: Bitmap, n: nat)
    requires PrefixFree(names) && n <= |names|
    ensures Parsed(names, Printed(names, status, n)) == LowBits(status, n)
    decreases n
  {
    if n == 0 {
      NothingMatchesEmpty(names, 0);
    } else {
      PrintParse(names, status, n - 1);
      ParseAppended(names, Printed(names, status, n - 1), n - 1);
      assert LowBits(status, n) == LowBits(status, n - 1) + if n - 1 in status then {n - 1} else {};
    }
  }

  lemma {:induction false} LookupIsLow(names: Table, word: string, i: nat)
    requires i <= |names|
    ensures forall b :: b in Lookup(names, word, i) ==> b < |names|
    decreases |names| - i
  {
    if i < |names| {
      LookupIsLow(names, word, i + 1);
    }
  }

  /** Parsing sets no bit that has no name. */
  lemma {:induction false} ParsedIsLow(names: Table, s: string)
    ensures forall b :: b in Parsed(names, s) ==> b < |names|
    decreases |s|
  {
    var k := IndexOf(s, ' ');
    LookupIsLow(names, s, 0);
    if k < |s| {
      LookupIsLow(names, s[..k], 0);
      ParsedIsLow(names, s[k + 1..]);
    }
  }

  // ---------- the table of the status words ----------

  /** The first two letters tell the names of the table apart. */
  lemma FirstLetters(i: nat)
    requires i < |NAMES|
    ensures |NAMES[i]| >= 2 && 'A' <= NAMES[i][0] <= 'Z' && 'A' <= NAMES[i][1] <= 'Z' && ' ' !in NAMES[i]
    ensures 100 * (NAMES[i][0] as int) + NAMES[i][1] as int ==
            [6765, 8482, 6679, 7976, 7966, 7986, 7666, 8266, 6689, 7970, 6772, 6873, 7266, 7083][i]
  {
  }

  /** No status word is a prefix of another, letter case aside. */
  lemma StatusWordsArePrefixFree()
    ensures |NAMES| == 14 && PrefixFree(NAMES)
  {
    forall i, j | 0 <= i < 14 && 0 <= j < 14 && i != j
      ensures !Matches(NAMES[i], NAMES[j]) && NAMES[i] != "" && ' ' !in NAMES[i]
    {
      FirstLetters(i);
      FirstLetters(j);
      assert Lower(NAMES[i][0]) != Lower(NAMES[j][0]) || Lower(NAMES[i][1]) != Lower(NAMES[j][1]);
    }
    forall i | 0 <= i < 14
      ensures NAMES[i] != "" && ' ' !in NAMES[i]
    {
      FirstLetters(i);
    }
  }

  /** The status words: printing and parsing keeps exactly the low 14 bits. */
  lemma StatusPrintParse(status: Bitmap)
    ensures |NAMES| == 14 && Parsed(NAMES, Printed(NAMES, status, 14)) == LowBits(status, 14)
  {
    StatusWordsArePrefixFree();
    PrintParse(NAMES, status, 14);
  }

  /** Parsing, printing and parsing again changes nothing, for every text. */
  lemma StatusParsePrintParse(s: string)
    ensures |NAMES| == 14 && Parsed(NAMES, Printed(NAMES, Parsed(NAMES, s), 14)) == Parsed(NAMES, s)
  {
    var status := Parsed(NAMES, s);
    StatusPrintParse(status);
    ParsedIsLow(NAMES, s);
    assert LowBits(status, 14) == status;
  }

  /** The fourteen words: each is read as its bit, and its bit alone is printed as the word. */
  lemma StatusWords(i: nat)
    requires i < 14
    ensures |NAMES| == 14
    ensures var word := ["CAL", "TRIM", "BOOST", "OL", "OB", "OVER", "LB", "RB", "BYPASS", "OFF", "CHRG", "DISCHRG",
                         "HB", "FSD"][i];
            Parsed(NAMES, word) == {i} && Printed(NAMES, {i}, 14) == word
  {
    StatusWordsArePrefixFree();
    ParseName(NAMES, i);
    PrintOne(NAMES, i, 14);
  }
}
