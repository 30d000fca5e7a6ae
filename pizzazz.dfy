/**
 * The Realtime Database triggers of the chat tutorial's Cloud Functions
 * (functions/src/index.ts): the `addPizzazz` text rewrite, the message
 * counter transactions and the decisions of the create, delete and update
 * triggers. The platform calls (`snapshot.ref.update`, `transaction`,
 * `Date.now()`, logging) are not modelled; each trigger is a function from
 * what it reads to what it writes.
 */
module MessageTriggers {
  import opened Wrappers

  // ---------------------------------------------------------------------
  // addPizzazz: text.replace(/\bpizza\b/g, '🍕')
  // ---------------------------------------------------------------------

  /** The replacement emoji U+1F355 (one Unicode scalar value). */
  const Emoji: char := '\U{1F355}'

  /** The word the regular expression looks for (matching is case-sensitive). */
  const Word: string := "pizza"

  /** A character of the regular-expression class `\w`: `[A-Za-z0-9_]`. */
  predicate IsWordChar(c: char) {
    ('a' <= c <= 'z') || ('A' <= c <= 'Z') || ('0' <= c <= '9') || c == '_'
  }

  /** `\b` before position `i`: the start of the text or a non-word character. */
  predicate LeftBoundary(s: string, i: nat)
    requires i <= |s|
  {
    i == 0 || !IsWordChar(s[i - 1])
  }

  /** `\b` at position `i`: the end of the text or a non-word character. */
  predicate RightBoundary(s: string, i: nat)
    requires i <= |s|
  {
    i == |s| || !IsWordChar(s[i])
  }

  /** `/\bpizza\b/` matches `s` at position `i` (a whole-word, case-sensitive `pizza`). */
  predicate MatchAt(s: string, i: nat) {
    i + |Word| <= |s| && s[i..i + |Word|] == Word &&
    LeftBoundary(s, i) && RightBoundary(s, i + |Word|)
  }

  /** `s` holds no whole-word `pizza` at all. */
  predicate NoWholeWordPizza(s: string) {
    forall i: nat :: i < |s| ==> !MatchAt(s, i)
  }

  /**
   * The global replace from position `i` on: the regular-expression engine
   * tries a match at each position of the ORIGINAL text, replaces a match by
   * the emoji and resumes after it, and otherwise copies one character.
   */
  function Scan(s: string, i: nat): string
    requires i <= |s|
    decreases |s| - i
  {
    if i == |s| then []
    else if MatchAt(s, i) then [Emoji] + Scan(s, i + |Word|)
    else [s[i]] + Scan(s, i + 1)
  }

  /** `addPizzazz(text)`: every whole-word `pizza` becomes the emoji. */
  function AddPizzazz(text: string): string {
    Scan(text, 0)
  }

  /** The scan never lengthens the text, and shortens it when it replaces something. */
  lemma {:induction false} ScanLength(s: string, i: nat)
    requires i <= |s|
    ensures |Scan(s, i)| <= |s| - i
    ensures (exists j :: i <= j < |s| && MatchAt(s, j)) ==> |Scan(s, i)| < |s| - i
    decreases |s| - i
  {
    if i < |s| {
      if MatchAt(s, i) {
        ScanLength(s, i + |Word|);
      } else {
        ScanLength(s, i + 1);
        if exists j :: i <= j < |s| && MatchAt(s, j) {
          var j :| i <= j < |s| && MatchAt(s, j);
          assert i + 1 <= j;
        }
      }
    }
  }

  /** Without a whole-word `pizza` from `i` on, the scan copies the rest of the text. */
  lemma {:induction false} ScanCopies(s: string, i: nat)
    requires i <= |s|
    requires forall j :: i <= j < |s| ==> !MatchAt(s, j)
    ensures Scan(s, i) == s[i..]
    decreases |s| - i
  {
    if i < |s| {
      ScanCopies(s, i + 1);
      assert s[i..] == [s[i]] + s[i + 1..];
    }
  }

  /** What the scan emits first: the emoji on a match, the character itself otherwise. */
  lemma ScanHead(s: string, i: nat)
    requires i < |s|
    ensures |Scan(s, i)| > 0
    ensures Scan(s, i)[0] == (if MatchAt(s, i) then Emoji else s[i])
  {
  }

  /**
   * Reading back an output character that is not the emoji: it is the
   * original character, no match started there, and the rest of the output
   * is the scan from the next position.
   */
  lemma CopiedChar(s: string, i: nat, out: string, p: nat)
    requires i <= |s| && p < |out|
    requires out[p..] == Scan(s, i)
    requires out[p] != Emoji
    ensures i < |s| && !MatchAt(s, i) && s[i] == out[p]
    ensures out[p + 1..] == Scan(s, i + 1)
  {
    ScanHead(s, i);
    assert out[p] == Scan(s, i)[0];
    assert out[p + 1..] == out[p..][1..];
  }

  /**
   * The output of the scan holds no whole-word `pizza` from `p` on, where
   * `out[p..]` is the scan of `s` from `i` and the two texts agree on the
   * boundary before those positions (or the original has none to offer).
   */
  lemma {:induction false} ScanLeavesNoMatch(s: string, i: nat, out: string, p: nat)
    requires i <= |s| && p <= |out|
    requires out[p..] == Scan(s, i)
    requires LeftBoundary(out, p) == LeftBoundary(s, i) || (!LeftBoundary(s, i) && RightBoundary(s, i))
    ensures forall k :: p <= k < |out| ==> !MatchAt(out, k)
    decreases |s| - i
  {
    if i == |s| {
      assert p == |out|;
    } else if MatchAt(s, i) {
      assert out[p] == Emoji;
      assert out[p + 1..] == Scan(s, i + |Word|);
      ScanLeavesNoMatch(s, i + |Word|, out, p + 1);
    } else {
      assert out[p] == s[i];
      assert out[p + 1..] == Scan(s, i + 1);
      if MatchAt(out, p) {
        NoMatchAfterCopy(s, i, out, p);
      }
      ScanLeavesNoMatch(s, i + 1, out, p + 1);
    }
  }

  /**
   * Reading back `n` output characters none of which is the emoji: they are
   * the original's next `n` characters, copied one by one.
   */
  lemma {:induction false} CopiedRun(s: string, i: nat, out: string, p: nat, n: nat)
    requires i <= |s| && p + n <= |out|
    requires out[p..] == Scan(s, i) && Emoji !in out[p..p + n]
    ensures i + n <= |s| && s[i..i + n] == out[p..p + n]
    ensures out[p + n..] == Scan(s, i + n)
    decreases n
  {
    if n > 0 {
      assert out[p] == out[p..p + n][0];
      CopiedChar(s, i, out, p);
      assert out[p + 1..p + n] == out[p..p + n][1..];
      CopiedRun(s, i + 1, out, p + 1, n - 1);
      assert s[i..i + n] == [s[i]] + s[i + 1..i + n];
      assert out[p..p + n] == [out[p]] + out[p + 1..p + n];
    }
  }

  /** Reading back a `pizza` in the output: it was copied from a `pizza` in the original. */
  lemma CopiedWord(s: string, i: nat, out: string, p: nat)
    requires i <= |s| && p + |Word| <= |out|
    requires out[p..] == Scan(s, i) && out[p..p + |Word|] == Word
    ensures i + |Word| <= |s| && s[i..i + |Word|] == Word
    ensures out[p + |Word|..] == Scan(s, i + |Word|)
  {
    assert Emoji !in Word;
    CopiedRun(s, i, out, p, |Word|);
  }

  /**
   * After a `pizza` copied unchanged, the output and the original agree on
   * the right boundary: no match can start right after the word's `a`.
   */
  lemma BoundaryAfterWord(s: string, i: nat, out: string, q: nat)
    requires 0 < i <= |s| && q <= |out|
    requires IsWordChar(s[i - 1]) && out[q..] == Scan(s, i)
    ensures RightBoundary(out, q) == RightBoundary(s, i)
  {
    if i < |s| {
      ScanHead(s, i);
      assert out[q] == Scan(s, i)[0];
    } else {
      assert out[q..] == [];
    }
  }

  /** The step of ScanLeavesNoMatch that rules out a match at `p` itself. */
  lemma NoMatchAfterCopy(s: string, i: nat, out: string, p: nat)
    requires i < |s| && p < |out|
    requires out[p..] == Scan(s, i) && !MatchAt(s, i)
    requires LeftBoundary(out, p) == LeftBoundary(s, i) || (!LeftBoundary(s, i) && RightBoundary(s, i))
    ensures !MatchAt(out, p)
  {
    if p + |Word| <= |out| && out[p..p + |Word|] == Word {
      CopiedWord(s, i, out, p);
      assert s[i] == s[i..i + |Word|][0] == 'p';
      assert s[i + 4] == s[i..i + |Word|][4] == 'a';
      BoundaryAfterWord(s, i + |Word|, out, p + |Word|);
    }
  }

  /** `addPizzazz` leaves no whole-word `pizza` behind. */
  lemma PizzazzLeavesNoPizza(text: string)
    ensures NoWholeWordPizza(AddPizzazz(text))
  {
    var out := AddPizzazz(text);
    ScanLeavesNoMatch(text, 0, out, 0);
    forall k: nat ensures !MatchAt(out, k) {
      if k < |out| {
      }
    }
  }

  /** Text is returned unchanged exactly when it holds no whole-word `pizza`. */
  lemma PizzazzUnchangedIff(text: string)
    ensures AddPizzazz(text) == text <==> NoWholeWordPizza(text)
  {
    if NoWholeWordPizza(text) {
      ScanCopies(text, 0);
    } else {
      var j: nat :| MatchAt(text, j);
      ScanLength(text, 0);
    }
  }

  /** `addPizzazz(addPizzazz(t)) == addPizzazz(t)`. */
  lemma PizzazzIdempotent(text: string)
    ensures AddPizzazz(AddPizzazz(text)) == AddPizzazz(text)
  {
    PizzazzLeavesNoPizza(text);
    PizzazzUnchangedIff(AddPizzazz(text));
  }

  /** A whole-word occurrence is replaced: the emoji followed by the scan of the rest. */
  lemma {:induction false} ScanReplacesMatch(s: string, i: nat, j: nat)
    requires i <= j && MatchAt(s, j)
    ensures var tail := [Emoji] + Scan(s, j + |Word|);
      |tail| <= |Scan(s, i)| && Scan(s, i)[|Scan(s, i)| - |tail|..] == tail
    decreases j - i
  {
    if i < j {
      if MatchAt(s, i) {
        NoOverlap(s, i, j);
        ScanReplacesMatch(s, i + |Word|, j);
      } else {
        ScanReplacesMatch(s, i + 1, j);
      }
    }
  }

  /** Two whole-word matches never overlap (`pizza` has no self-overlap). */
  lemma NoOverlap(s: string, m: nat, j: nat)
    requires m < j && MatchAt(s, m) && MatchAt(s, j)
    ensures m + |Word| <= j
  {
    forall k | m < k < m + |Word| ensures s[k] != 'p' {
      assert s[k] == s[m..m + |Word|][k - m];
    }
    assert s[j] == s[j..j + |Word|][0] == 'p';
  }

  /** Every whole-word `pizza` of the text ends up as the emoji in the output. */
  lemma PizzazzReplacesEveryMatch(text: string, j: nat)
    requires MatchAt(text, j)
    ensures var tail := [Emoji] + Scan(text, j + |Word|);
      |tail| <= |AddPizzazz(text)| && AddPizzazz(text)[|AddPizzazz(text)| - |tail|..] == tail
  {
    ScanReplacesMatch(text, 0, j);
  }

  /** A standalone `pizza` is replaced. */
  lemma PizzazzReplacesStandalone()
    ensures AddPizzazz("pizza!") == [Emoji] + "!"
  {
    var s := "pizza!";
    assert MatchAt(s, 0);
    assert !MatchAt(s, 5);
    assert Scan(s, 5) == "!";
  }

  /** A `pizza` glued to a word character, or capitalised, is left alone. */
  lemma PizzazzLeavesGluedWords()
    ensures AddPizzazz("pizzas") == "pizzas"
    ensures AddPizzazz("_pizza") == "_pizza"
    ensures AddPizzazz("Pizza") == "Pizza"
  {
    var s := "pizzas";
    assert !RightBoundary(s, 5);
    assert s[1..6] != Word by { assert s[1] != Word[0]; }
    assert NoWholeWordPizza(s);
    PizzazzUnchangedIff(s);
    s := "_pizza";
    assert !LeftBoundary(s, 1);
    assert s[0..5] != Word by { assert s[0] != Word[0]; }
    assert NoWholeWordPizza(s);
    PizzazzUnchangedIff(s);
    s := "Pizza";
    assert s[0..5] != Word by { assert s[0] != Word[0]; }
    assert NoWholeWordPizza(s);
    PizzazzUnchangedIff(s);
  }

  // ---------------------------------------------------------------------
  // addPizzazz word by word
  // ---------------------------------------------------------------------

  /** The length of the leading run of word characters of `s`. */
  function WordRun(s: string): (n: nat)
    ensures n <= |s|
    ensures forall k :: 0 <= k < n ==> IsWordChar(s[k])
    ensures n < |s| ==> !IsWordChar(s[n])
  {
    if s == [] || !IsWordChar(s[0]) then 0 else 1 + WordRun(s[1..])
  }

  /** How one word (a maximal run of word characters) is rewritten. */
  function RewriteWord(w: string): string {
    if w == Word then [Emoji] else w
  }

  /**
   * A reference definition of `addPizzazz` that does not scan: split the
   * text at its non-word characters, rewrite each word on its own and keep
   * every separator.
   */
  function ByWords(s: string): string
    decreases |s|
  {
    var n := WordRun(s);
    if n == |s| then RewriteWord(s)
    else RewriteWord(s[..n]) + [s[n]] + ByWords(s[n + 1..])
  }

  /** After a boundary at `k`, a match at `k + j` is a match at `j` of the rest `b`. */
  lemma MatchInSuffix(s: string, k: nat, b: string, j: nat)
    requires k <= |s| && s[k..] == b && LeftBoundary(s, k) && j < |b|
    ensures MatchAt(s, k + j) == MatchAt(b, j)
  {
    if k + j + |Word| <= |s| {
      forall m | k + j <= m < k + j + |Word| ensures s[m] == b[m - k] {
      }
      assert s[k + j..k + j + |Word|] == b[j..j + |Word|];
    }
    if j > 0 {
      assert s[k + j - 1] == b[j - 1];
    }
    if k + j + |Word| < |s| {
      assert s[k + j + |Word|] == b[j + |Word|];
    }
  }

  /** One step of ScanInSuffix: both scans emit the same first piece and move on alike. */
  lemma ScanInSuffixStep(s: string, k: nat, b: string, j: nat)
    requires k <= |s| && s[k..] == b && LeftBoundary(s, k) && j < |b|
    ensures MatchAt(b, j) ==> Scan(s, k + j) == [Emoji] + Scan(s, k + (j + |Word|))
    ensures !MatchAt(b, j) ==> Scan(s, k + j) == [b[j]] + Scan(s, k + (j + 1))
  {
    MatchInSuffix(s, k, b, j);
    assert s[k + j] == b[j];
  }

  /** After a boundary at `k`, the scan of `s` from `k + j` is the scan of the rest `b` from `j`. */
  lemma {:induction false} ScanInSuffix(s: string, k: nat, b: string, j: nat)
    requires k <= |s| && s[k..] == b && LeftBoundary(s, k) && j <= |b|
    ensures Scan(s, k + j) == Scan(b, j)
    decreases |b| - j
  {
    if j < |b| {
      ScanInSuffixStep(s, k, b, j);
      if MatchAt(b, j) {
        ScanInSuffix(s, k, b, j + |Word|);
      } else {
        ScanInSuffix(s, k, b, j + 1);
      }
    }
  }

  /**
   * Before a non-word character at `|a|`, a match at `i` of `s` is a match
   * at `i` of the prefix `a`: no `pizza` can run across the separator.
   */
  lemma MatchInPrefix(s: string, a: string, i: nat)
    requires |a| < |s| && s[..|a|] == a && !IsWordChar(s[|a|]) && i < |a|
    ensures MatchAt(s, i) == MatchAt(a, i)
  {
    if i + |Word| <= |a| {
      forall m | i <= m < i + |Word| ensures s[m] == a[m] {
        assert s[m] == s[..|a|][m];
      }
      assert s[i..i + |Word|] == a[i..i + |Word|];
      if i + |Word| < |a| {
        assert s[i + |Word|] == a[i + |Word|];
      }
    } else if i + |Word| <= |s| {
      assert s[|a|] == s[i..i + |Word|][|a| - i];
      assert forall m :: 0 <= m < |Word| ==> IsWordChar(Word[m]);
    }
    if i > 0 {
      assert s[i - 1] == a[i - 1];
    }
  }

  /** One step of ScanInPrefix: both scans emit the same first piece and move on alike. */
  lemma ScanInPrefixStep(s: string, a: string, i: nat)
    requires |a| < |s| && s[..|a|] == a && !IsWordChar(s[|a|]) && i < |a|
    ensures MatchAt(a, i) ==> Scan(s, i) == [Emoji] + Scan(s, i + |Word|) && i + |Word| <= |a|
    ensures !MatchAt(a, i) ==> Scan(s, i) == [a[i]] + Scan(s, i + 1)
  {
    MatchInPrefix(s, a, i);
    assert s[i] == s[..|a|][i];
  }

  /** Before a non-word character at `|a|`, the scan of `s` is the scan of `a` and then the rest. */
  lemma {:induction false} ScanInPrefix(s: string, a: string, i: nat)
    requires |a| < |s| && s[..|a|] == a && !IsWordChar(s[|a|]) && i <= |a|
    ensures Scan(s, i) == Scan(a, i) + Scan(s, |a|)
    decreases |a| - i
  {
    if i < |a| {
      ScanInPrefixStep(s, a, i);
      var rest := Scan(s, |a|);
      if MatchAt(a, i) {
        ScanInPrefix(s, a, i + |Word|);
        calc {
          Scan(s, i);
          [Emoji] + (Scan(a, i + |Word|) + rest);
          ([Emoji] + Scan(a, i + |Word|)) + rest;
          Scan(a, i) + rest;
        }
      } else {
        ScanInPrefix(s, a, i + 1);
        calc {
          Scan(s, i);
          [a[i]] + (Scan(a, i + 1) + rest);
          ([a[i]] + Scan(a, i + 1)) + rest;
          Scan(a, i) + rest;
        }
      }
    }
  }

  /** A non-word character splits the rewrite: it is kept, and each side is rewritten on its own. */
  lemma PizzazzSplitsAtSeparator(a: string, c: char, b: string)
    requires !IsWordChar(c)
    ensures AddPizzazz(a + [c] + b) == AddPizzazz(a) + [c] + AddPizzazz(b)
  {
    var s := a + [c] + b;
    assert s[..|a|] == a && s[|a|] == c;
    ScanInPrefix(s, a, 0);
    assert !MatchAt(s, |a|) by {
      if |a| + |Word| <= |s| {
        assert s[|a|..|a| + |Word|][0] == c;
      }
    }
    assert s[|a| + 1..] == b;
    ScanInSuffix(s, |a| + 1, b, 0);
  }

  /**
   * A text made only of word characters is replaced by the emoji when it is
   * exactly `pizza`, and kept otherwise (`pizzas`, `Pizza`, `mypizza`).
   */
  lemma PizzazzOnOneWord(w: string)
    requires forall k :: 0 <= k < |w| ==> IsWordChar(w[k])
    ensures AddPizzazz(w) == RewriteWord(w)
  {
    if w == Word {
      assert MatchAt(w, 0);
      assert Scan(w, |Word|) == [];
    } else {
      forall j | 0 <= j < |w| ensures !MatchAt(w, j) {
        if j > 0 {
          assert !LeftBoundary(w, j);
        } else if |w| != |Word| {
          assert |w| < |Word| || !RightBoundary(w, |Word|);
        } else {
          assert w[0..|Word|] == w;
        }
      }
      ScanCopies(w, 0);
    }
  }

  /** `addPizzazz` is the word-by-word rewrite, for every text. */
  lemma {:induction false} PizzazzIsByWords(s: string)
    ensures AddPizzazz(s) == ByWords(s)
    decreases |s|
  {
    var n := WordRun(s);
    if n == |s| {
      PizzazzOnOneWord(s);
    } else {
      assert s == s[..n] + [s[n]] + s[n + 1..];
      PizzazzSplitsAtSeparator(s[..n], s[n], s[n + 1..]);
      PizzazzOnOneWord(s[..n]);
      PizzazzIsByWords(s[n + 1..]);
    }
  }

  // ---------------------------------------------------------------------
  // The triggers
  // ---------------------------------------------------------------------

  /**
   * A chat message node under /rooms/{roomId}/messages/{messageId}. `text`
   * is None when the node has no `text` child, or one that is not a string:
   * then `text.replace` throws a TypeError inside `addPizzazz`.
   */
  datatype Message = Message(text: Option<string>, timeEdited: Option<int>)

  /** The room's `messageCount` as read by a transaction; absent is treated as 0. */
  function CountOf(count: Option<int>): int {
    count.GetOr(0)
  }

  /** The onCreate transaction callback: `count => count + 1`. */
  function IncrementCount(count: Option<int>): int
  {
    CountOf(count) + 1
  }

  /** The onDelete transaction callback: `count => count - 1`. */
  function DecrementCount(count: Option<int>): int
  {
    CountOf(count) - 1
  }

  /** The two counter transactions undo each other, in either order. */
  lemma CountTransactionsInverse(count: Option<int>)
    ensures DecrementCount(Some(IncrementCount(count))) == CountOf(count)
    ensures IncrementCount(Some(DecrementCount(count))) == CountOf(count)
  {
  }

  /** What `onMessageCreate` writes: the rewritten text and the new message count. */
  datatype CreateWrites = CreateWrites(text: string, messageCount: int)

  /**
   * `onMessageCreate`: rewrite the new message's text, then count it. Without
   * a string `text` the rewrite throws before either write, so nothing is
   * written and the message is not counted.
   */
  function OnMessageCreate(created: Message, count: Option<int>): (w: Option<CreateWrites>)
    ensures w.None? <==> created.text.None?
    ensures w.Some? ==> NoWholeWordPizza(w.value.text)
    ensures w.Some? ==> (w.value.text == created.text.value <==> NoWholeWordPizza(created.text.value))
    ensures w.Some? ==> w.value.messageCount == CountOf(count) + 1
  {
    match created.text
    case None => None
    case Some(text) =>
      PizzazzLeavesNoPizza(text);
      PizzazzUnchangedIff(text);
      Some(CreateWrites(AddPizzazz(text), IncrementCount(count)))
  }

  /** The room's `messageCount` once the create trigger has run. */
  function CountAfterCreate(created: Message, count: Option<int>): Option<int> {
    match OnMessageCreate(created, count)
    case None => count
    case Some(w) => Some(w.messageCount)
  }

  /** `onMessageDelete`: the new message count. */
  function OnMessageDelete(count: Option<int>): int
  {
    DecrementCount(count)
  }

  /**
   * Creating and then deleting a message leaves the room's count where it
   * was when the message has a string `text`; otherwise the create trigger
   * threw before counting it, the delete trigger still decrements, and the
   * count ends one lower.
   */
  lemma CreateThenDeleteRestoresCount(created: Message, count: Option<int>)
    ensures created.text.Some? ==> OnMessageDelete(CountAfterCreate(created, count)) == CountOf(count)
    ensures created.text.None? ==> OnMessageDelete(CountAfterCreate(created, count)) == CountOf(count) - 1
  {
  }

  /** What `onMessageUpdate` writes (merged into the message node). */
  datatype UpdateWrite = UpdateWrite(text: string, timeEdited: int)

  /**
   * `onMessageUpdate`: nothing when the text did not change (`===`, so two
   * absent texts are equal), otherwise the rewritten text stamped with `now`
   * (the value of `Date.now()`). A changed text that is not a string makes
   * the rewrite throw, so nothing is written either.
   */
  function OnMessageUpdate(before: Message, after: Message, now: int): (w: Option<UpdateWrite>)
    ensures w == None <==> before.text == after.text || after.text.None?
    ensures w.Some? ==> NoWholeWordPizza(w.value.text) && w.value.timeEdited == now
    ensures w.Some? ==> (w.value.text == after.text.value <==> NoWholeWordPizza(after.text.value))
  {
    if before.text == after.text then None
    else
      match after.text
      case None => None
      case Some(text) =>
        PizzazzLeavesNoPizza(text);
        PizzazzUnchangedIff(text);
        Some(UpdateWrite(AddPizzazz(text), now))
  }

  /** The message node after `ref.update(...)` merges a write into it. */
  function ApplyUpdate(m: Message, w: UpdateWrite): Message {
    m.(text := Some(w.text), timeEdited := Some(w.timeEdited))
  }

  /**
   * The update trigger re-fires on its own write, and on the write after
   * that, but the chain stops there: the third firing writes nothing.
   */
  lemma UpdateChainSettles(before: Message, after: Message, t1: int, t2: int, t3: int)
    ensures var w1 := OnMessageUpdate(before, after, t1);
      w1.Some? ==>
        var m1 := ApplyUpdate(after, w1.value);
        var w2 := OnMessageUpdate(after, m1, t2);
        w2.Some? ==>
          var m2 := ApplyUpdate(m1, w2.value);
          OnMessageUpdate(m1, m2, t3) == None
  {
    if after.text.Some? {
      PizzazzIdempotent(after.text.value);
    }
  }

  /**
   * The create trigger's own write fires the update trigger once; the
   * write that causes, if any, ends the chain.
   */
  lemma CreateThenUpdateSettles(created: Message, count: Option<int>, t1: int, t2: int)
    ensures var c := OnMessageCreate(created, count);
      c.Some? ==>
        var m1 := created.(text := Some(c.value.text));
        var w1 := OnMessageUpdate(created, m1, t1);
        w1.Some? ==> OnMessageUpdate(m1, ApplyUpdate(m1, w1.value), t2) == None
  {
    if created.text.Some? {
      PizzazzIdempotent(created.text.value);
    }
  }
}
