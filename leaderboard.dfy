/**
 * The pure parts of the leaderboard view (js/leaderboard.js): `escapeHtml`, the chain of five
 * global replacements that keeps entry fields from being read as markup, and the rows that
 * `renderLeaderboard` builds from the first ten entries: rank, rank class and the escaped
 * fields with their defaults. The markup around the rows, the DOM and the network are not
 * part of this model.
 */
module Leaderboard {

  // ----- Field values -----

  /** A field of a leaderboard entry: missing (`undefined` or `null`), a string, or a whole number. */
  datatype Field = Absent | Str(s: string) | Num(n: int)

  /** JavaScript falsiness of a field: missing, the empty string, or the number 0. */
  predicate Falsy(v: Field) {
    v.Absent? || v == Str("") || v == Num(0)
  }

  /** The decimal digit d. */
  function DigitChar(d: int): (c: char)
    requires 0 <= d < 10
    ensures '0' <= c <= '9' && DigitValue(c) == d
  {
    "0123456789"[d]
  }

  /** The decimal digits of n, most significant first, without leading zeros. */
  function Digits(n: nat): (r: string)
    ensures |r| >= 1 && (n > 0 ==> r[0] != '0')
    ensures forall i :: 0 <= i < |r| ==> '0' <= r[i] <= '9'
  {
    if n < 10 then [DigitChar(n)] else Digits(n / 10) + [DigitChar(n % 10)]
  }

  /** `String(v)` for a field that is present: the string itself, or the number in decimal with a leading minus when negative. */
  function Text(v: Field): (r: string)
    requires !v.Absent?
    ensures v.Str? ==> r == v.s
    ensures v.Num? ==> |r| >= 1 && (r[0] == '-' <==> v.n < 0)
    ensures v.Num? ==> forall i :: 0 <= i < |r| ==> r[i] == '-' || '0' <= r[i] <= '9'
  {
    match v
    case Str(s) => s
    case Num(n) => if n < 0 then "-" + Digits(-n) else Digits(n)
  }

  /** The value of a decimal digit character. */
  function DigitValue(c: char): int {
    c as int - '0' as int
  }

  /** The number a string of decimal digits denotes, most significant digit first. */
  function DecimalValue(r: string): int {
    if r == [] then 0 else DecimalValue(r[..|r| - 1]) * 10 + DigitValue(r[|r| - 1])
  }

  /** The number a decimal text with an optional leading minus denotes. */
  function ReadNumber(r: string): int {
    if |r| > 0 && r[0] == '-' then -DecimalValue(r[1..]) else DecimalValue(r)
  }

  /** The digits of n read back as n. */
  lemma {:induction false} DigitsValue(n: nat)
    ensures DecimalValue(Digits(n)) == n
  {
    if n >= 10 {
      var r := Digits(n);
      assert r[..|r| - 1] == Digits(n / 10);
      DigitsValue(n / 10);
    }
  }

  /** A minus sign in front of a digit string negates what it reads as. */
  lemma ReadNegative(d: string)
    ensures ReadNumber("-" + d) == -DecimalValue(d)
  {
    assert ("-" + d)[1..] == d;
  }

  /** The text of a number reads back as that number. */
  lemma NumberText(n: int)
    ensures ReadNumber(Text(Num(n))) == n
  {
    if n < 0 {
      DigitsValue(-n);
      ReadNegative(Digits(-n));
    } else {
      DigitsValue(n);
    }
  }

  // ----- escapeHtml -----

  /** The five characters `escapeHtml` replaces. */
  predicate Special(c: char) {
    c == '&' || c == '<' || c == '>' || c == '"' || c == '\''
  }

  /** A string that cannot open a tag or leave an attribute value: no `<`, `>`, `"` or `'`. */
  predicate Inert(s: string) {
    forall i :: 0 <= i < |s| ==> s[i] != '<' && s[i] != '>' && s[i] != '"' && s[i] != '\''
  }

  /** `s.replace(/c/g, rep)`: every occurrence of c in s replaced by rep. */
  function ReplaceAll(s: string, c: char, rep: string): string {
    if s == [] then [] else (if s[0] == c then rep else [s[0]]) + ReplaceAll(s[1..], c, rep)
  }

  /** The character that step k of the chain replaces, in the source's order: `&`, `<`, `>`, `"`, `'`. */
  function Replaced(k: nat): char
    requires k < 5
  {
    ['&', '<', '>', '"', '\''][k]
  }

  /** The entity that step k of the chain writes. */
  function Entity(k: nat): string
    requires k < 5
  {
    ["&amp;", "&lt;", "&gt;", "&quot;", "&#039;"][k]
  }

  /** Steps k to 4 of the replacement chain applied to s. */
  function Stages(s: string, k: nat): string
    requires k <= 5
    decreases 5 - k
  {
    if k == 5 then s else Stages(ReplaceAll(s, Replaced(k), Entity(k)), k + 1)
  }

  /** The replacement chain of `escapeHtml`: all five steps. */
  function Chain(s: string): string {
    Stages(s, 0)
  }

  /** `escapeHtml`: "" for a falsy field, otherwise the replacement chain applied to its text. */
  function EscapeHtml(v: Field): (r: string)
    ensures Falsy(v) ==> r == ""
    ensures Inert(r) && AmpsOpenEntities(r)
  {
    if Falsy(v) then ""
    else
      ChainIsEscape(Text(v));
      EscapeInert(Text(v));
      Chain(Text(v))
  }

  /** The entity of one character: the five special characters become entities, any other stands for itself. */
  function EscapeChar(c: char): (r: string)
    ensures Special(c) <==> |r| > 1
    ensures Inert(r)
  {
    if c == '&' then "&amp;"
    else if c == '<' then "&lt;"
    else if c == '>' then "&gt;"
    else if c == '"' then "&quot;"
    else if c == '\'' then "&#039;"
    else [c]
  }

  /** Escaping character by character: what the chain computes, because `&` is replaced before any entity exists. */
  function Escape(s: string): string {
    if s == [] then [] else EscapeChar(s[0]) + Escape(s[1..])
  }

  /** Replacing a character that does not occur changes nothing. */
  lemma {:induction false} ReplaceAbsent(s: string, c: char, rep: string)
    requires c !in s
    ensures ReplaceAll(s, c, rep) == s
  {
    if s != [] {
      assert c !in s[1..];
      ReplaceAbsent(s[1..], c, rep);
    }
  }

  /** Replacement distributes over concatenation. */
  lemma {:induction false} ReplaceAppend(a: string, b: string, c: char, rep: string)
    ensures ReplaceAll(a + b, c, rep) == ReplaceAll(a, c, rep) + ReplaceAll(b, c, rep)
  {
    if a != [] {
      var head := if a[0] == c then rep else [a[0]];
      assert (a + b)[0] == a[0] && (a + b)[1..] == a[1..] + b;
      assert ReplaceAll(a + b, c, rep) == head + ReplaceAll(a[1..] + b, c, rep);
      ReplaceAppend(a[1..], b, c, rep);
      assert ReplaceAll(a, c, rep) == head + ReplaceAll(a[1..], c, rep);
      assert head + (ReplaceAll(a[1..], c, rep) + ReplaceAll(b, c, rep)) == (head + ReplaceAll(a[1..], c, rep)) + ReplaceAll(b, c, rep);
    } else {
      assert a + b == b;
    }
  }

  /** So does every tail of the chain. */
  lemma {:induction false} StagesAppend(a: string, b: string, k: nat)
    requires k <= 5
    ensures Stages(a + b, k) == Stages(a, k) + Stages(b, k)
    decreases 5 - k
  {
    if k < 5 {
      ReplaceAppend(a, b, Replaced(k), Entity(k));
      StagesAppend(ReplaceAll(a, Replaced(k), Entity(k)), ReplaceAll(b, Replaced(k), Entity(k)), k + 1);
    }
  }

  /** A string holding none of the characters replaced from step k on passes those steps unchanged. */
  lemma {:induction false} StagesAbsent(e: string, k: nat)
    requires k <= 5
    requires forall j :: k <= j < 5 ==> Replaced(j) !in e
    ensures Stages(e, k) == e
    decreases 5 - k
  {
    if k < 5 {
      ReplaceAbsent(e, Replaced(k), Entity(k));
      StagesAbsent(e, k + 1);
    }
  }

  /** The step of the chain that replaces c, or 5 if none does. */
  function StepOf(c: char): (k: nat)
    ensures k <= 5
    ensures forall j :: 0 <= j < k ==> Replaced(j) != c
    ensures k < 5 ==> Replaced(k) == c && EscapeChar(c) == Entity(k)
    ensures k == 5 ==> EscapeChar(c) == [c]
  {
    if c == '&' then 0 else if c == '<' then 1 else if c == '>' then 2 else if c == '"' then 3 else if c == '\'' then 4 else 5
  }

  /** Replacing c in the one-character string [x]. */
  lemma ReplaceChar(x: char, c: char, rep: string)
    ensures ReplaceAll([x], c, rep) == if x == c then rep else [x]
  {
    assert [x][1..] == [];
  }

  /** The entity of step k holds none of the characters the later steps replace. */
  lemma EntityStable(k: nat)
    requires k < 5
    ensures Stages(Entity(k), k + 1) == Entity(k)
  {
    StagesAbsent(Entity(k), k + 1);
  }

  /**
   * A single character passes the steps before its own unchanged, is replaced by its entity
   * at its own step, and the entity passes the remaining steps unchanged.
   */
  lemma {:induction false} StagesChar(c: char, k: nat)
    requires k <= StepOf(c)
    ensures Stages([c], k) == EscapeChar(c)
    decreases 5 - k
  {
    if k < 5 {
      ReplaceChar(c, Replaced(k), Entity(k));
      if k == StepOf(c) {
        EntityStable(k);
      } else {
        StagesChar(c, k + 1);
      }
    }
  }

  /** The replacement chain of `escapeHtml` is character-by-character escaping. */
  lemma {:induction false} ChainIsEscape(s: string)
    ensures Chain(s) == Escape(s)
  {
    if s != [] {
      assert s == [s[0]] + s[1..];
      StagesAppend([s[0]], s[1..], 0);
      StagesChar(s[0], 0);
      ChainIsEscape(s[1..]);
    }
  }

  /** u begins with one of the five entities. */
  predicate StartsEntity(u: string) {
    exists k :: 0 <= k < 5 && Entity(k) <= u
  }

  /** Every `&` of t opens one of the five entities. */
  predicate AmpsOpenEntities(t: string) {
    forall i :: 0 <= i < |t| && t[i] == '&' ==> StartsEntity(t[i..])
  }

  /** In the escape of one character followed by any text, the only `&` is the one opening its entity. */
  lemma EscapeCharAmps(c: char, rest: string)
    ensures forall i :: 0 <= i < |EscapeChar(c)| && (EscapeChar(c) + rest)[i] == '&' ==> StartsEntity((EscapeChar(c) + rest)[i..])
  {
    var e, k := EscapeChar(c), StepOf(c);
    if k < 5 {
      assert (e + rest)[0..] == e + rest;
      assert Entity(k) <= (e + rest)[0..];
    }
  }

  /** Escaped text never holds `<`, `>`, `"` or `'`, and each of its `&` opens an entity. */
  lemma {:induction false} EscapeInert(s: string)
    ensures Inert(Escape(s))
    ensures AmpsOpenEntities(Escape(s))
  {
    if s != [] {
      EscapeInert(s[1..]);
      var e, rest := EscapeChar(s[0]), Escape(s[1..]);
      assert forall i :: |e| <= i < |e + rest| ==> (e + rest)[i] == rest[i - |e|];
      EscapeCharAmps(s[0], rest);
      forall i | |e| <= i < |e + rest| && (e + rest)[i] == '&'
        ensures StartsEntity((e + rest)[i..])
      {
        assert (e + rest)[i..] == rest[i - |e|..];
      }
    }
  }

  /** How often c occurs in s. */
  function Count(s: string, c: char): (k: nat)
    ensures k <= |s|
  {
    if s == [] then 0 else (if s[0] == c then 1 else 0) + Count(s[1..], c)
  }

  /** Each `&` grows the text by 4 characters, each `<` and `>` by 3, each `"` and `'` by 5. */
  lemma {:induction false} EscapeLength(s: string)
    ensures |Escape(s)| == |s| + 4 * Count(s, '&') + 3 * Count(s, '<') + 3 * Count(s, '>') + 5 * Count(s, '"') + 5 * Count(s, '\'')
  {
    if s != [] {
      EscapeLength(s[1..]);
    }
  }

  /** Decoding of the five entities `escapeHtml` writes; any other character stands for itself. */
  function Unescape(t: string): string
    decreases |t|
  {
    if t == [] then []
    else if t[0] != '&' then [t[0]] + Unescape(t[1..])
    else if |t| >= 5 && t[..5] == "&amp;" then "&" + Unescape(t[5..])
    else if |t| >= 4 && t[..4] == "&lt;" then "<" + Unescape(t[4..])
    else if |t| >= 4 && t[..4] == "&gt;" then ">" + Unescape(t[4..])
    else if |t| >= 6 && t[..6] == "&quot;" then "\"" + Unescape(t[6..])
    else if |t| >= 6 && t[..6] == "&#039;" then "'" + Unescape(t[6..])
    else [t[0]] + Unescape(t[1..])
  }

  /** Decoding one entity in front of any text gives back its character. */
  lemma UnescapeCons(c: char, rest: string)
    ensures Unescape(EscapeChar(c) + rest) == [c] + Unescape(rest)
  {
    var t := EscapeChar(c) + rest;
    if c == '&' {
      assert t[0] == '&' && t[..5] == "&amp;" && t[5..] == rest;
    } else if c == '<' || c == '>' {
      assert t[0] == '&' && t[..4] == EscapeChar(c) && t[4..] == rest;
      assert |t| >= 5 ==> t[..5][1] == t[1];
    } else if c == '"' || c == '\'' {
      assert t[0] == '&' && t[..6] == EscapeChar(c) && t[6..] == rest;
      assert t[..5][1] == t[1] && t[..4][1] == t[1];
    } else {
      assert t[0] == c && t[1..] == rest;
    }
  }

  /** Text without special characters is its own escape. */
  lemma {:induction false} EscapePlain(s: string)
    requires forall i :: 0 <= i < |s| ==> !Special(s[i])
    ensures Escape(s) == s
  {
    if s != [] {
      EscapePlain(s[1..]);
    }
  }

  /** A non-empty string without special characters comes out of `escapeHtml` as it went in. */
  lemma EscapeHtmlPlain(s: string)
    requires s != [] && forall i :: 0 <= i < |s| ==> !Special(s[i])
    ensures EscapeHtml(Str(s)) == s
  {
    ChainIsEscape(s);
    EscapePlain(s);
  }

  /** Escaping loses nothing: decoding the entities gives the text back. */
  lemma {:induction false} UnescapeEscape(s: string)
    ensures Unescape(Escape(s)) == s
  {
    if s != [] {
      UnescapeCons(s[0], Escape(s[1..]));
      UnescapeEscape(s[1..]);
    }
  }

  /** So `escapeHtml` maps different texts of truthy fields to different strings. */
  lemma EscapeHtmlInjective(v: Field, w: Field)
    requires !Falsy(v) && !Falsy(w) && EscapeHtml(v) == EscapeHtml(w)
    ensures Text(v) == Text(w)
  {
    ChainIsEscape(Text(v));
    ChainIsEscape(Text(w));
    UnescapeEscape(Text(v));
    UnescapeEscape(Text(w));
  }

  // ----- renderLeaderboard -----

  /** A stored score: who played, at which difficulty, the score, the number of moves, and when. */
  datatype Entry = Entry(name: Field, difficulty: Field, score: Field, moves: Field, date: Field)

  /** One table row as `renderLeaderboard` fills it: the rank, its class, and the five escaped cells. */
  datatype Row = Row(rank: nat, rankClass: string, name: string, difficulty: string, score: string, moves: string, date: string)

  /** `v || fallback` for a string fallback. */
  function Or(v: Field, fallback: string): (r: Field)
    ensures Falsy(v) ==> r == Str(fallback)
    ensures !Falsy(v) ==> r == v
  {
    if Falsy(v) then Str(fallback) else v
  }

  /** The class of a rank: "rank-1", "rank-2" or "rank-3" for the podium, none below it. */
  function RankClass(rank: int): (c: string)
    ensures c != "" <==> 1 <= rank <= 3
    ensures 1 <= rank <= 3 ==> c == "rank-" + [DigitChar(rank)]
  {
    if rank == 1 then "rank-1" else if rank == 2 then "rank-2" else if rank == 3 then "rank-3" else ""
  }

  /** `entries.slice(0, 10)`: at most the first ten entries, in their order. */
  function TopEntries(entries: seq<Entry>): (top: seq<Entry>)
    ensures |top| == (if |entries| < 10 then |entries| else 10)
    ensures forall i :: 0 <= i < |top| ==> top[i] == entries[i]
  {
    if |entries| <= 10 then entries else entries[..10]
  }

  /**
   * The row of the entry at position index: ranked index + 1, with a rank class exactly in
   * the first three places, and five cells that are all escaped. The date goes through the
   * locale formatting `formatDate` (a parameter here) when it is truthy, and is empty otherwise.
   */
  function RenderRow(entry: Entry, index: nat, formatDate: string -> string): (row: Row)
    ensures row.rank == index + 1 && (row.rankClass != "" <==> index < 3)
    ensures Inert(row.name) && Inert(row.difficulty) && Inert(row.score) && Inert(row.moves) && Inert(row.date)
    ensures AmpsOpenEntities(row.name) && AmpsOpenEntities(row.difficulty) && AmpsOpenEntities(row.score) &&
            AmpsOpenEntities(row.moves) && AmpsOpenEntities(row.date)
  {
    var rank := index + 1;
    var dateStr := if Falsy(entry.date) then Str("") else Str(formatDate(Text(entry.date)));
    Row(rank, RankClass(rank),
        EscapeHtml(Or(entry.name, "Anonym")),
        EscapeHtml(Or(entry.difficulty, "-")),
        EscapeHtml(entry.score),
        EscapeHtml(Or(entry.moves, "-")),
        EscapeHtml(dateStr))
  }

  /** The rows `renderLeaderboard` writes for `entries`: row i renders entry i, for the first ten entries. */
  function Rows(entries: seq<Entry>, formatDate: string -> string): (rows: seq<Row>)
    ensures |rows| == |TopEntries(entries)|
    ensures forall i :: 0 <= i < |rows| ==> rows[i] == RenderRow(entries[i], i, formatDate)
  {
    var top := TopEntries(entries);
    seq(|top|, i requires 0 <= i < |top| => RenderRow(top[i], i, formatDate))
  }

  /** At most ten rows, ranked 1, 2, 3, ... in the entries' order, with a class exactly on the first three. */
  lemma RowsRanked(entries: seq<Entry>, formatDate: string -> string)
    ensures |Rows(entries, formatDate)| <= 10 && |Rows(entries, formatDate)| <= |entries|
    ensures |entries| >= 10 ==> |Rows(entries, formatDate)| == 10
    ensures forall i :: 0 <= i < |Rows(entries, formatDate)| ==>
      Rows(entries, formatDate)[i].rank == i + 1 && (Rows(entries, formatDate)[i].rankClass != "" <==> i < 3)
  {
  }

  /** Every cell of every row is inert and each of its `&` opens an entity: no field of an entry can inject markup. */
  lemma RowsInert(entries: seq<Entry>, formatDate: string -> string)
    ensures forall row :: row in Rows(entries, formatDate) ==>
      Inert(row.name) && Inert(row.difficulty) && Inert(row.score) && Inert(row.moves) && Inert(row.date)
    ensures forall row :: row in Rows(entries, formatDate) ==>
      AmpsOpenEntities(row.name) && AmpsOpenEntities(row.difficulty) && AmpsOpenEntities(row.score) &&
      AmpsOpenEntities(row.moves) && AmpsOpenEntities(row.date)
  {
  }

  /** A missing name shows as "Anonym", a missing difficulty or move count as "-", and a falsy score as nothing. */
  lemma RowDefaults(entry: Entry, index: nat, formatDate: string -> string)
    ensures Falsy(entry.name) ==> RenderRow(entry, index, formatDate).name == "Anonym"
    ensures Falsy(entry.difficulty) ==> RenderRow(entry, index, formatDate).difficulty == "-"
    ensures Falsy(entry.moves) ==> RenderRow(entry, index, formatDate).moves == "-"
    ensures Falsy(entry.score) ==> RenderRow(entry, index, formatDate).score == ""
    ensures Falsy(entry.date) ==> RenderRow(entry, index, formatDate).date == ""
  {
    EscapeHtmlPlain("Anonym");
    EscapeHtmlPlain("-");
  }

  /** A name that is given shows as its text, escaped, and decoding the cell gives the name back. */
  lemma RowNameFaithful(entry: Entry, index: nat, formatDate: string -> string)
    requires !Falsy(entry.name)
    ensures RenderRow(entry, index, formatDate).name == Escape(Text(entry.name))
    ensures Unescape(RenderRow(entry, index, formatDate).name) == Text(entry.name)
  {
    ChainIsEscape(Text(entry.name));
    UnescapeEscape(Text(entry.name));
  }
}
