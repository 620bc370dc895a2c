/** warmup/wc.c: the tokenizer and the chained table of word counts. */
module WordCount {
  import opened StringHash

  const TABLE_SIZE: nat := 100000000

  /** isspace, in the C locale */
  predicate IsSpace(c: int) {
    c == 32 || 9 <= c <= 13
  }

  // ---- The words of a text ----

  /** text[a..b] is a word: without white space, and as long as that is possible. */
  predicate IsWord(text: seq<int>, a: int, b: int) {
    0 <= a < b <= |text| && (forall k :: a <= k < b ==> !IsSpace(text[k])) &&
    (a == 0 || IsSpace(text[a - 1])) && (b == |text| || IsSpace(text[b]))
  }

  /** Where the word starts that goes on at i, or i */
  function Current(text: seq<int>, i: nat): (a: nat)
    requires i <= |text|
    ensures a <= i
  {
    if i == 0 then 0 else if IsSpace(text[i - 1]) then i else Current(text, i - 1)
  }

  /** The words that white space before i ended, in order */
  function Ended(text: seq<int>, i: nat): seq<(nat, nat)>
    requires i <= |text|
  {
    if i == 0 then []
    else if IsSpace(text[i - 1]) &&
         Current(text, i - 1) < i - 1 then Ended(text, i - 1) + [(Current(text, i - 1), i - 1)]
    else Ended(text, i - 1)
  }

  /** All words, in order */
  function Words(text: seq<int>): seq<(nat, nat)> {
    var n := |text|;
    Ended(text, n) + if Current(text, n) < n then [(Current(text, n), n)] else []
  }

  lemma {:induction false} CurrentExact(text: seq<int>, i: nat)
    requires i <= |text|
    ensures var a := Current(text, i);
            (forall k :: a <= k < i ==> !IsSpace(text[k])) && (a == 0 || IsSpace(text[a - 1]))
  {
    if i > 0 && !IsSpace(text[i - 1]) {
      CurrentExact(text, i - 1);
    }
  }

  lemma {:induction false} CurrentUnique(text: seq<int>, i: nat, a: nat)
    requires a <= i <= |text| && (forall k :: a <= k < i ==> !IsSpace(text[k])) && (a == 0 || IsSpace(text[a - 1]))
    ensures Current(text, i) == a
  {
    if a < i {
      CurrentUnique(text, i - 1, a);
    }
  }

  lemma {:induction false} EndedExact(text: seq<int>, i: nat)
    requires i <= |text|
    ensures forall a: nat, b: nat :: (a, b) in Ended(text, i) <==> b < i && IsWord(text, a, b)
  {
    if i > 0 {
      EndedExact(text, i - 1);
      CurrentExact(text, i - 1);
      forall a: nat, b: nat ensures (a, b) in Ended(text, i) <==> b < i && IsWord(text, a, b) {
        if b == i - 1 && IsWord(text, a, b) {
          CurrentUnique(text, i - 1, a);
        }
      }
    }
  }

  /** A word that ended lies before the white space in front of the current one. */
  lemma {:induction false} EndedBefore(text: seq<int>, i: nat)
    requires i <= |text|
    ensures forall k :: 0 <= k < |Ended(text, i)| ==> Ended(text, i)[k].1 < Current(text, i)
  {
    if i > 0 {
      EndedBefore(text, i - 1);
    }
  }

  lemma {:induction false} EndedOrdered(text: seq<int>, i: nat)
    requires i <= |text|
    ensures forall j, k :: 0 <= j < k < |Ended(text, i)| ==> Ended(text, i)[j].1 < Ended(text, i)[k].0
  {
    if i > 0 {
      EndedOrdered(text, i - 1);
      EndedBefore(text, i - 1);
    }
  }

  /** The words of a text are exactly its maximal runs without white space, each once, in order. */
  lemma WordsExact(text: seq<int>)
    ensures forall a: nat, b: nat :: (a, b) in Words(text) <==> IsWord(text, a, b)
    ensures forall j, k :: 0 <= j < k < |Words(text)| ==> Words(text)[j].1 < Words(text)[k].0
  {
    var n := |text|;
    EndedExact(text, n);
    EndedOrdered(text, n);
    EndedBefore(text, n);
    CurrentExact(text, n);
    forall a: nat, b: nat ensures (a, b) in Words(text) <==> IsWord(text, a, b) {
      if b == n && IsWord(text, a, b) {
        CurrentUnique(text, n, a);
      }
    }
  }

  function Spelled(text: seq<int>, spans: seq<(nat, nat)>): (r: seq<seq<int>>)
    requires forall k :: 0 <= k < |spans| ==> spans[k].0 <= spans[k].1 <= |text|
    ensures |r| == |spans| && forall k :: 0 <= k < |r| ==> r[k] == text[spans[k].0..spans[k].1]
  {
    seq(|spans|, k requires 0 <= k < |spans| => text[spans[k].0..spans[k].1])
  }

  // ---- The table ----

  datatype Entry = Entry(word: seq<int>, numSeen: nat)

  function Hash(word: seq<int>): (h: nat)
    ensures h < TABLE_SIZE
  {
    HashFrom(5381, word) % TABLE_SIZE
  }

  type Table = t: seq<seq<Entry>> | |t| == TABLE_SIZE witness seq(TABLE_SIZE, _ => [])

  /** How often the word was seen, by the entries of its chain */
  function CountIn(chain: seq<Entry>, word: seq<int>): nat {
    if chain == [] then 0
    else CountIn(chain[..|chain| - 1], word) + if chain[|chain| - 1].word == word then chain[|chain| - 1].numSeen else 0
  }

  function Count(table: Table, word: seq<int>): nat {
    CountIn(table[Hash(word)], word)
  }

  /** Each word has one entry, in the chain of its hash, and was seen. */
  ghost predicate Ok(table: Table) {
    forall h, i :: 0 <= h < TABLE_SIZE && 0 <= i < |table[h]| ==>
      Hash(table[h][i].word) == h && table[h][i].numSeen > 0 && forall j :: 0 <= j < i ==>
        table[h][j].word != table[h][i].word
  }

  lemma {:induction false} CountAbsent(chain: seq<Entry>, word: seq<int>)
    requires forall i :: 0 <= i < |chain| ==> chain[i].word != word
    ensures CountIn(chain, word) == 0
  {
    if chain != [] {
      CountAbsent(chain[..|chain| - 1], word);
    }
  }

  lemma {:induction false} CountUpdate(chain: seq<Entry>, i: nat, e: Entry, word: seq<int>)
    requires i < |chain| && e.word == chain[i].word
    ensures CountIn(chain[i := e], word) == CountIn(chain, word) + if word == e.word then e.numSeen - chain[i].numSeen
            else 0
  {
    var init := chain[..|chain| - 1];
    if i == |chain| - 1 {
      assert chain[i := e][..|chain| - 1] == init;
    } else {
      CountUpdate(init, i, e, word);
      assert chain[i := e][..|chain| - 1] == init[i := e];
    }
  }

  /** One more occurrence of a word: its entry counts it in its place, or a new one comes to the end of the chain. */
  ghost predicate Placed(table: Table, word: seq<int>, table': Table) {
    var chain, chain' := table[Hash(word)], table'[Hash(word)];
    (forall h :: 0 <= h < TABLE_SIZE && h != Hash(word) ==> table'[h] == table[h]) &&
    if exists i :: 0 <= i < |chain| && chain[i].word == word
    then |chain'| == |chain| &&
      forall i :: 0 <= i < |chain| ==>
        chain'[i] == if chain[i].word == word then Entry(word, chain[i].numSeen + 1) else chain[i]
    else chain' == chain + [Entry(word, 1)]
  }

  lemma PlacedInPlace(table: Table, word: seq<int>, i: nat)
    requires Ok(table) && i < |table[Hash(word)]| && table[Hash(word)][i].word == word
    ensures var chain := table[Hash(word)];
            Placed(table, word, table[Hash(word) := chain[i := Entry(word, chain[i].numSeen + 1)]])
  {
    hide Hash;
  }

  lemma PlacedAtEnd(table: Table, word: seq<int>)
    requires forall i :: 0 <= i < |table[Hash(word)]| ==> table[Hash(word)][i].word != word
    ensures Placed(table, word, table[Hash(word) := table[Hash(word)] + [Entry(word, 1)]])
  {
    hide Hash;
  }

  /** insertEntry: the entry of the word counts one more in its place, or a new one comes to the end of its chain. */
  method InsertEntry(table: Table, word: seq<int>) returns (table': Table)
    requires Ok(table)
    ensures Ok(table') && forall w :: Count(table', w) == Count(table, w) + if w == word then 1 else 0
    ensures Placed(table, word, table')
  {
    hide Hash;
    hide Placed;
    var h := Hash(word);
    var chain := table[h];
    if chain == [] {
      PlacedAtEnd(table, word);
      assert [] + [Entry(word, 1)] == [Entry(word, 1)];
      table' := table[h := [Entry(word, 1)]];
      assert [Entry(word, 1)][..0] == [];
      return;
    }
    var i := 0;
    while i + 1 < |chain| && chain[i].word != word
      invariant i < |chain| && forall k :: 0 <= k < i ==> chain[k].word != word
    {
      i := i + 1;
    }
    if i + 1 < |chain| || chain[i].word == word {
      PlacedInPlace(table, word, i);
      var e := Entry(chain[i].word, chain[i].numSeen + 1);
      table' := table[h := chain[i := e]];
      forall w ensures Count(table', w) == Count(table, w) + if w == word then 1 else 0 {
        CountUpdate(chain, i, e, w);
      }
    } else {
      PlacedAtEnd(table, word);
      table' := table[h := chain + [Entry(word, 1)]];
      assert table'[h][..|chain|] == chain;
    }
  }

  /** What wc_init counts: the words that white space ended, and the last one, if there is one, without its last
      character */
  function Counted(text: seq<int>): (spans: seq<(nat, nat)>) {
    var n := |text|;
    if n == 0 || IsSpace(text[n - 1]) then Ended(text, n)
    else Ended(text, n) + if Current(text, n - 1) < n - 1 then [(Current(text, n - 1), n - 1)] else []
  }

  lemma {:induction false} EndedSpans(text: seq<int>, i: nat)
    requires i <= |text|
    ensures forall k :: 0 <= k < |Ended(text, i)| ==> Ended(text, i)[k].0 <= Ended(text, i)[k].1 <= |text|
  {
    if i > 0 {
      EndedSpans(text, i - 1);
    }
  }

  /** The characters before the first NUL: what strncpy, strcmp and hash see of a word */
  function CString(word: seq<int>): (r: seq<int>)
    ensures r <= word && 0 !in r && (|r| < |word| ==> word[|r|] == 0)
  {
    if word == [] || word[0] == 0 then [] else [word[0]] + CString(word[1..])
  }

  function CStrings(words: seq<seq<int>>): (r: seq<seq<int>>)
    ensures |r| == |words| && forall k :: 0 <= k < |r| ==> r[k] == CString(words[k])
  {
    seq(|words|, k requires 0 <= k < |words| => CString(words[k]))
  }

  /** The table after the words in `spans` were inserted, one by one, as C strings */
  ghost predicate Holds(table: Table, text: seq<int>, spans: seq<(nat, nat)>) {
    Ok(table) && (forall k :: 0 <= k < |spans| ==> spans[k].0 <= spans[k].1 <= |text|) &&
    forall w :: Count(table, w) == multiset(CStrings(Spelled(text, spans)))[w]
  }

  lemma OneMoreWord(table: Table, text: seq<int>, spans: seq<(nat, nat)>, span: (nat, nat), table': Table)
    requires Holds(table, text, spans) && span.0 <= span.1 <= |text| && Ok(table')
    requires forall w :: Count(table', w) == Count(table, w) + if w == CString(text[span.0..span.1]) then 1 else 0
    ensures Holds(table', text, spans + [span])
  {
    hide CString;
    assert Spelled(text, spans + [span]) == Spelled(text, spans) + [text[span.0..span.1]];
    assert CStrings(Spelled(text, spans + [span])) == CStrings(Spelled(text, spans)) + [CString(text[span.0..span.1])];
  }

  /** The cursors of wc_init before character i, and the words it has cut out */
  ghost predicate Scanned(text: seq<int>, i: nat, charCount: nat, moreSpace: nat, head: nat, spans: seq<(nat, nat)>) {
    i <= |text| &&
    (i < |text| ==>
       spans == Ended(text, i) && head + moreSpace == Current(text, i) && charCount == i - Current(text, i)) &&
    (i == |text| ==> spans == Counted(text))
  }

  lemma ScannedWord(text: seq<int>, i: nat, charCount: nat, moreSpace: nat, head: nat, spans: seq<(nat, nat)>)
    requires Scanned(text, i, charCount, moreSpace, head, spans) && i < |text|
    requires charCount != 0 && (IsSpace(text[i]) || i == |text| - 1)
    ensures Scanned(text, i + 1, 0, 0, head + charCount + 1 + moreSpace, spans + [(head + moreSpace, i)])
    ensures head + moreSpace + charCount == i
  {
  }

  lemma ScannedSpace(text: seq<int>, i: nat, charCount: nat, moreSpace: nat, head: nat, spans: seq<(nat, nat)>)
    requires Scanned(text, i, charCount, moreSpace, head, spans) && i < |text| && charCount == 0 && IsSpace(text[i])
    ensures Scanned(text, i + 1, 0, moreSpace + 1, head, spans)
  {
  }

  lemma ScannedCharacter(text: seq<int>, i: nat, charCount: nat, moreSpace: nat, head: nat, spans: seq<(nat, nat)>)
    requires Scanned(text, i, charCount, moreSpace, head, spans) && i < |text| && !IsSpace(text[i])
    requires charCount == 0 || i < |text| - 1
    ensures Scanned(text, i + 1, charCount + 1, moreSpace, head, spans)
  {
  }

  /** wc_init */
  method Init(text: seq<int>) returns (table: Table)
    ensures Holds(table, text, Counted(text))
  {
    hide Holds;
    hide Scanned;
    hide Placed;
    hide Counted;
    hide IsSpace;
    hide Hash;
    hide Ok;
    table := seq(TABLE_SIZE, _ => []);
    NothingCounted(table, text);
    var i: nat := 0;
    var charCount: nat, moreSpace: nat, movingWordHead: nat := 0, 0, 0;
    ghost var spans: seq<(nat, nat)> := [];
    while i < |text|
      invariant i <= |text| && Holds(table, text, spans) &&
                Scanned(text, i, charCount, moreSpace, movingWordHead, spans)
    {
      if charCount != 0 && (IsSpace(text[i]) || i == |text| - 1) {
        ScannedWord(text, i, charCount, moreSpace, movingWordHead, spans);
        var at := movingWordHead + moreSpace;
        var singleWord := CString(text[at..at + charCount]);
        movingWordHead := movingWordHead + charCount + 1 + moreSpace;
        charCount, moreSpace := 0, 0;
        HeldOk(table, text, spans);
        var table' := InsertEntry(table, singleWord);
        OneMoreWord(table, text, spans, (at, i), table');
        table, spans := table', spans + [(at, i)];
      } else if charCount == 0 && IsSpace(text[i]) {
        ScannedSpace(text, i, charCount, moreSpace, movingWordHead, spans);
        moreSpace := moreSpace + 1;
      } else {
        ScannedCharacter(text, i, charCount, moreSpace, movingWordHead, spans);
        charCount := charCount + 1;
      }
      i := i + 1;
    }
    ScannedAll(text, charCount, moreSpace, movingWordHead, spans);
  }

  lemma NothingCounted(table: Table, text: seq<int>)
    requires table == seq(TABLE_SIZE, _ => [])
    ensures Holds(table, text, []) && Scanned(text, 0, 0, 0, 0, [])
  {
  }

  lemma HeldOk(table: Table, text: seq<int>, spans: seq<(nat, nat)>)
    requires Holds(table, text, spans)
    ensures Ok(table)
  {
  }

  lemma ScannedAll(text: seq<int>, charCount: nat, moreSpace: nat, head: nat, spans: seq<(nat, nat)>)
    requires Scanned(text, |text|, charCount, moreSpace, head, spans)
    ensures spans == Counted(text)
  {
  }

  lemma LastWord(text: seq<int>)
    requires text != [] && !IsSpace(text[|text| - 1])
    ensures Words(text) == Ended(text, |text|) + [(Current(text, |text|), |text|)]
    ensures Current(text, |text|) == Current(text, |text| - 1) < |text|
  {
  }

  lemma SpelledNext(text: seq<int>, spans: seq<(nat, nat)>, a: nat, b: nat)
    requires (forall k :: 0 <= k < |spans| ==> spans[k].0 <= spans[k].1 <= |text|) && a <= b <= |text|
    ensures multiset(Spelled(text, spans + [(a, b)])) == multiset(Spelled(text, spans)) + multiset{text[a..b]}
  {
    assert Spelled(text, spans + [(a, b)]) == Spelled(text, spans) + [text[a..b]];
  }

  /** The word around character k of text[..i], which may go on at i */
  lemma {:induction false} WordAround(text: seq<int>, k: nat, i: nat) returns (a: nat, b: nat)
    requires k < i <= |text| && !IsSpace(text[k])
    ensures a <= k < b <= i && if b < i then IsWord(text, a, b) else a == Current(text, i)
  {
    if k == i - 1 {
      a, b := Current(text, i), i;
    } else {
      a, b := WordAround(text, k, i - 1);
      CurrentExact(text, i - 1);
      if b == i - 1 && !IsSpace(text[i - 1]) {
        b := i;
      }
    }
  }

  /** A text with a NUL has a word with a NUL. */
  lemma WordOf(text: seq<int>, k: nat) returns (word: seq<int>)
    requires k < |text| && text[k] == 0
    ensures (forall j :: 0 <= j < |Words(text)| ==> Words(text)[j].0 <= Words(text)[j].1 <= |text|)
    ensures 0 in word && word in Spelled(text, Words(text))
  {
    hide Words;
    var a, b := WordAround(text, k, |text|);
    AmongWords(text, a, b);
    WordSpans(text);
    word := text[a..b];
    assert word[k - a] == 0;
    var j :| 0 <= j < |Words(text)| && Words(text)[j] == (a, b);
    assert Spelled(text, Words(text))[j] == word;
  }

  lemma AmongWords(text: seq<int>, a: nat, b: nat)
    requires a < b <= |text| && if b < |text| then IsWord(text, a, b) else a == Current(text, |text|)
    ensures (a, b) in Words(text)
  {
    if b < |text| {
      EndedExact(text, |text|);
      assert (a, b) in Ended(text, |text|);
    }
  }

  lemma WordSpans(text: seq<int>)
    ensures (forall j :: 0 <= j < |Words(text)| ==> Words(text)[j].0 <= Words(text)[j].1 <= |text|)
  {
    EndedSpans(text, |text|);
  }

  /** The table says of each word how often the text has it. */
  ghost predicate CountsWords(table: Table, text: seq<int>) {
    (forall k :: 0 <= k < |Words(text)| ==> Words(text)[k].0 <= Words(text)[k].1 <= |text|) &&
    forall w :: Count(table, w) == multiset(Spelled(text, Words(text)))[w]
  }

  /** Without a NUL the words are C strings. */
  lemma AllCStrings(text: seq<int>, spans: seq<(nat, nat)>)
    requires 0 !in text && forall k :: 0 <= k < |spans| ==> spans[k].0 <= spans[k].1 <= |text|
    ensures CStrings(Spelled(text, spans)) == Spelled(text, spans)
  {
    var words := Spelled(text, spans);
    forall k | 0 <= k < |words| ensures CString(words[k]) == words[k] {
      assert forall c :: c in words[k] ==> c in text;
    }
  }

  lemma LastShort(text: seq<int>, ended: seq<(nat, nat)>, a: nat)
    requires (forall k :: 0 <= k < |ended| ==> ended[k].0 <= ended[k].1 <= |text|) && a < |text|
    ensures var n := |text|;
            multiset(Spelled(text, ended + if a < n - 1 then [(a, n - 1)]
                             else [])) != multiset(Spelled(text, ended + [(a, n)]))
  {
    hide Spelled;
    var n := |text|;
    var last, all := text[a..n], multiset(Spelled(text, ended));
    SpelledNext(text, ended, a, n);
    assert multiset(Spelled(text, ended + [(a, n)]))[last] == all[last] + 1;
    if a < n - 1 {
      SpelledNext(text, ended, a, n - 1);
      assert |text[a..n - 1]| != |last|;
      assert multiset(Spelled(text, ended + [(a, n - 1)]))[last] == all[last];
    } else {
      assert ended + [] == ended;
    }
  }

  /** What wc_init counts are the words of the text if and only if the text is empty or ends in white space. */
  lemma CountedExact(text: seq<int>)
    ensures (forall k :: 0 <= k < |Words(text)| ==> Words(text)[k].0 <= Words(text)[k].1 <= |text|)
    ensures (forall k :: 0 <= k < |Counted(text)| ==> Counted(text)[k].0 <= Counted(text)[k].1 <= |text|)
    ensures multiset(Spelled(text, Counted(text))) == multiset(Spelled(text, Words(text))) <==>
            text == [] || IsSpace(text[|text| - 1])
  {
    hide Spelled;
    hide Ended;
    hide Current;
    var n := |text|;
    EndedSpans(text, n);
    if n == 0 || IsSpace(text[n - 1]) {
      EndsInSpace(text);
    } else {
      LastWord(text);
      LastShort(text, Ended(text, n), Current(text, n));
    }
  }

  lemma EndsInSpace(text: seq<int>)
    requires text == [] || IsSpace(text[|text| - 1])
    ensures Words(text) == Counted(text) == Ended(text, |text|)
  {
  }

  lemma NotCounted(table: Table, text: seq<int>, word: seq<int>)
    requires Holds(table, text, Counted(text)) && 0 in word
    ensures Count(table, word) == 0
  {
    var words := CStrings(Spelled(text, Counted(text)));
    assert word !in words;
  }

  /** The table counts each word as often as the text has it if and only if the text has no NUL, and is empty or ends
      in white space. */
  lemma CountsExact(table: Table, text: seq<int>)
    requires Holds(table, text, Counted(text))
    ensures CountsWords(table, text) <==> 0 !in text && (text == [] || IsSpace(text[|text| - 1]))
  {
    hide Hash;
    hide Ok;
    hide Words;
    hide Counted;
    CountedExact(text);
    if 0 in text {
      var k :| 0 <= k < |text| && text[k] == 0;
      var word := WordOf(text, k);
      NotCounted(table, text, word);
      assert multiset(Spelled(text, Words(text)))[word] > 0;
    } else {
      AllCStrings(text, Counted(text));
      if CountsWords(table, text) {
        assert multiset(Spelled(text, Counted(text))) == multiset(Spelled(text, Words(text)));
      }
    }
  }
}
