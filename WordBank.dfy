/** The backend's word lists (backend/server.js): loading one list per language from its
    text file, the word of the day and the membership check behind guess validation. */
module WordBank {
  import opened Text
  import opened Wrappers

  /** The languages the server loads a list for, in the order it loads them. */
  const Languages: seq<string> := ["en", "es", "fr"]

  /** Word lists by language code; a code with no entry is an unknown language. */
  type Bank = map<string, seq<string>>

  /** The names every JavaScript object inherits from `Object.prototype`. Looking one of
      them up in the plain object that holds the lists yields a truthy value that is not a
      list: a function, or `Object.prototype` itself for "__proto__". */
  const PrototypeNames: set<string> := {
    "constructor", "__proto__", "__defineGetter__", "__defineSetter__", "__lookupGetter__",
    "__lookupSetter__", "hasOwnProperty", "isPrototypeOf", "propertyIsEnumerable",
    "toLocaleString", "toString", "valueOf"
  }

  /** UnknownLanguage is the 400 reply; ServerError is the 500 reply Express sends when
      the handler throws. */
  datatype Error = UnknownLanguage | ServerError

  /** `text.split(/\r?\n/)`: the pieces between line breaks, where a line break is
      "\n" or "\r\n". */
  function SplitLines(text: string): (lines: seq<string>)
    ensures |lines| == multiset(text)['\n'] + 1
    ensures forall l :: l in lines ==> '\n' !in l
  {
    if |text| == 0 then [""]
    else if |text| >= 2 && text[0] == '\r' && text[1] == '\n' then
      assert text == [text[0]] + [text[1]] + text[2..];
      assert multiset(text)['\n'] == multiset(text[2..])['\n'] + 1;
      [""] + SplitLines(text[2..])
    else
      assert text == [text[0]] + text[1..];
      var rest := SplitLines(text[1..]);
      if text[0] == '\n' then [""] + rest
      else [[text[0]] + rest[0]] + rest[1..]
  }

  /** A non-empty normalised word: no white space at either end, no upper-case letter. */
  predicate IsNormal(w: string) {
    w != [] && !IsSpace(w[0]) && !IsSpace(w[|w| - 1]) && forall i :: 0 <= i < |w| ==> !IsUpper(w[i])
  }

  /** The lines joined back with "\n" between them. */
  function JoinLines(lines: seq<string>): string
    requires |lines| >= 1
  {
    if |lines| == 1 then lines[0] else lines[0] + "\n" + JoinLines(lines[1..])
  }

  /** The text with the "\r" of every "\r\n" removed. */
  function DropCR(text: string): string {
    if |text| >= 2 && text[0] == '\r' && text[1] == '\n' then "\n" + DropCR(text[2..])
    else if text == [] then []
    else [text[0]] + DropCR(text[1..])
  }

  /** Joining the lines with "\n" gives back the text, each "\r\n" read as "\n". Since no
      line holds "\n", this fixes the lines (JoinLinesInjective). */
  lemma {:induction false} SplitLinesJoin(text: string)
    ensures JoinLines(SplitLines(text)) == DropCR(text)
  {
    if |text| == 0 {
    } else if |text| >= 2 && text[0] == '\r' && text[1] == '\n' {
      SplitLinesJoin(text[2..]);
    } else {
      SplitLinesJoin(text[1..]);
      var rest := SplitLines(text[1..]);
      if text[0] != '\n' {
        JoinConsFirst(text[0], rest);
      }
    }
  }

  /** Adding a character at the front of the first line adds it at the front of the join. */
  lemma JoinConsFirst(c: char, lines: seq<string>)
    requires |lines| >= 1
    ensures JoinLines([[c] + lines[0]] + lines[1..]) == [c] + JoinLines(lines)
  {
    var ls := [[c] + lines[0]] + lines[1..];
    assert ls[1..] == lines[1..];
  }

  /** Lines without "\n" are determined by their join. */
  lemma {:induction false} JoinLinesInjective(a: seq<string>, b: seq<string>)
    requires |a| >= 1 && |b| >= 1
    requires forall l :: l in a ==> '\n' !in l
    requires forall l :: l in b ==> '\n' !in l
    requires JoinLines(a) == JoinLines(b)
    ensures a == b
  {
    JoinNewline(a);
    JoinNewline(b);
    if |a| > 1 && |b| > 1 {
      assert a[0] in a && b[0] in b;
      var ja, jb := JoinLines(a), JoinLines(b);
      FirstNewline(a);
      FirstNewline(b);
      assert a[0] == ja[..|a[0]|] == jb[..|b[0]|] == b[0];
      assert JoinLines(a[1..]) == ja[|a[0]| + 1..] == jb[|b[0]| + 1..] == JoinLines(b[1..]);
      forall l | l in a[1..] ensures '\n' !in l {
        assert l in a;
      }
      forall l | l in b[1..] ensures '\n' !in l {
        assert l in b;
      }
      JoinLinesInjective(a[1..], b[1..]);
      assert a == [a[0]] + a[1..] && b == [b[0]] + b[1..];
    } else if |a| == 1 && |b| == 1 {
      assert a == [a[0]] && b == [b[0]];
    }
  }

  /** The join of lines without "\n" holds a "\n" exactly when there are several lines. */
  lemma JoinNewline(a: seq<string>)
    requires |a| >= 1 && forall l :: l in a ==> '\n' !in l
    ensures '\n' in JoinLines(a) <==> |a| > 1
  {
    assert a[0] in a;
    if |a| > 1 {
      assert JoinLines(a)[|a[0]|] == '\n';
    }
  }

  /** The first "\n" of a join of several lines ends the first line. */
  lemma FirstNewline(a: seq<string>)
    requires |a| > 1 && '\n' !in a[0]
    ensures JoinLines(a)[|a[0]|] == '\n'
    ensures forall k :: 0 <= k < |a[0]| ==> JoinLines(a)[k] == a[0][k] != '\n'
  {
  }

  /** The split is the only list of lines without "\n" that joins back to the text with each
      "\r\n" read as "\n". */
  lemma SplitLinesUnique(text: string, lines: seq<string>)
    requires |lines| >= 1 && forall l :: l in lines ==> '\n' !in l
    requires JoinLines(lines) == DropCR(text)
    ensures lines == SplitLines(text)
  {
    SplitLinesJoin(text);
    JoinLinesInjective(lines, SplitLines(text));
  }

  /** `w.trim().toLowerCase()`: a line that does not vanish becomes a normal word no
      longer than the line. */
  function Normalise(w: string): (r: string)
    ensures |r| <= |w|
    ensures r != [] ==> IsNormal(r)
  {
    Lower(Trim(w))
  }

  lemma NormalFixed(w: string)
    requires IsNormal(w)
    ensures Normalise(w) == w && Lower(w) == w
  {
    TrimOfTrimmed(w);
    LowerOfLower(w);
  }

  /** Normalising twice is normalising once. */
  lemma NormaliseIdempotent(w: string)
    ensures Normalise(Normalise(w)) == Normalise(w)
  {
    if Normalise(w) != [] {
      NormalFixed(Normalise(w));
    }
  }

  /** `lines.map(f).filter(Boolean)`: the images of the lines under `f`, in order,
      without the empty ones. */
  function MapNonEmpty(lines: seq<string>, f: string -> string): (words: seq<string>)
    ensures forall w :: w in words ==> w != ""
  {
    if lines == [] then []
    else
      var w := f(lines[0]);
      var rest := MapNonEmpty(lines[1..], f);
      if w == "" then rest else [w] + rest
  }

  /** A word is kept exactly when some line maps to it and it is not empty: only
      empty images are dropped. */
  lemma {:induction false} MapNonEmptyKeeps(lines: seq<string>, f: string -> string, v: string)
    ensures v in MapNonEmpty(lines, f) <==> v != "" && exists l :: l in lines && f(l) == v
  {
    if lines != [] {
      MapNonEmptyKeeps(lines[1..], f, v);
      assert lines == [lines[0]] + lines[1..];
      if v != "" && exists l :: l in lines && f(l) == v {
        var l :| l in lines && f(l) == v;
        if l != lines[0] {
          assert l in lines[1..];
        }
      }
      if v in MapNonEmpty(lines, f) && v == f(lines[0]) {
        assert lines[0] in lines;
      }
    }
  }

  /** The kept words come in the order of their lines, one per line: a line added at the
      end adds its image at the end, unless that image is empty. */
  lemma {:induction false} MapNonEmptyAppend(lines: seq<string>, l: string, f: string -> string)
    ensures MapNonEmpty(lines + [l], f) == MapNonEmpty(lines, f) + (if f(l) == "" then [] else [f(l)])
  {
    if lines == [] {
      assert [l][1..] == [];
    } else {
      assert (lines + [l])[1..] == lines[1..] + [l];
      MapNonEmptyAppend(lines[1..], l, f);
    }
  }

  /** `.map((w) => w.trim().toLowerCase()).filter(Boolean)`: every loaded word is normal,
      and a word is loaded exactly when some line normalises to it. */
  function LoadWords(lines: seq<string>): (words: seq<string>)
    ensures forall w :: w in words ==> IsNormal(w)
    ensures forall w :: w in words <==> w != "" && exists l :: l in lines && Normalise(l) == w
  {
    var words := MapNonEmpty(lines, Normalise);
    forall w ensures w in words <==> w != "" && exists l :: l in lines && Normalise(l) == w {
      MapNonEmptyKeeps(lines, Normalise, w);
    }
    forall w | w in words ensures IsNormal(w) {
      var l :| l in lines && Normalise(l) == w;
    }
    words
  }

  /** What every list of a loaded bank satisfies. */
  ghost predicate WellFormed(bank: Bank) {
    forall lang, w :: lang in bank && w in bank[lang] ==> IsNormal(w)
  }

  /** The word lists the server builds at start-up from the text of en.txt, es.txt and fr.txt. */
  function LoadBank(en: string, es: string, fr: string): (bank: Bank)
    ensures bank.Keys == set lang | lang in Languages
    ensures WellFormed(bank)
  {
    BankOf(LoadWords(SplitLines(en)), LoadWords(SplitLines(es)), LoadWords(SplitLines(fr)))
  }

  /** `WORDS` once the three lists are in place. */
  function BankOf(enWords: seq<string>, esWords: seq<string>, frWords: seq<string>): (bank: Bank)
    requires forall w :: w in enWords ==> IsNormal(w)
    requires forall w :: w in esWords ==> IsNormal(w)
    requires forall w :: w in frWords ==> IsNormal(w)
    ensures bank.Keys == set lang | lang in Languages
    ensures WellFormed(bank)
  {
    var bank := map["en" := enWords, "es" := esWords, "fr" := frWords];
    assert bank.Keys == {"en", "es", "fr"};
    bank
  }

  /** GET /api/day-word/:lang, for a day count `daysSince` since 1 January 2023. An empty
      list yields no word (`list[NaN]` is undefined). So does an inherited name: its value
      has a small or undefined `length` and no indexed entries, so `list[index]` is
      undefined. Any other name without a list is refused. */
  function DayWord(bank: Bank, lang: string, daysSince: nat): (r: Result<Option<string>, Error>)
    ensures r.Err? <==> lang !in bank && lang !in PrototypeNames
    ensures r.Err? ==> r.error == UnknownLanguage
    ensures r == Ok(None) <==> (lang in bank && bank[lang] == []) || (lang !in bank && lang in PrototypeNames)
    ensures r.Ok? && r.value.Some? ==> lang in bank && r.value.value in bank[lang]
  {
    if lang in bank then
      var list := bank[lang];
      if |list| == 0 then Ok(None) else Ok(Some(list[daysSince % |list|]))
    else if lang in PrototypeNames then Ok(None)
    else Err(UnknownLanguage)
  }

  /** The schedule repeats with the length of the list as its period, and the day
      count `d` selects entry `d mod |list|`. */
  lemma {:induction false} DayWordPeriodic(bank: Bank, lang: string, d: nat)
    requires lang in bank && bank[lang] != []
    ensures DayWord(bank, lang, d) == Ok(Some(bank[lang][d % |bank[lang]|]))
    ensures DayWord(bank, lang, d + |bank[lang]|) == DayWord(bank, lang, d)
  {
    var n := |bank[lang]|;
    assert d + n == (d / n + 1) * n + d % n;
    ModUnique(d + n, n, d / n + 1, d % n);
  }

  /** Every word of a list is the word of some day in every window of as many
      consecutive days as the list is long. */
  lemma EveryWordHasItsDay(bank: Bank, lang: string, i: nat, start: nat)
    requires lang in bank && i < |bank[lang]|
    ensures exists d :: (start <= d < start + |bank[lang]| && d % |bank[lang]| == i &&
      DayWord(bank, lang, d) == Ok(Some(bank[lang][i])))
  {
    var n := |bank[lang]|;
    var q := (i - start) / n;
    var d := start + (i - start) % n;
    assert i - start == q * n + (i - start) % n;
    assert d == (-q) * n + i;
    ModUnique(d, n, -q, i);
    assert DayWord(bank, lang, d) == Ok(Some(bank[lang][i]));
  }

  /** Two days of one window of as many days as the list is long select the same entry
      only if they are the same day. */
  lemma DayIndexUnique(n: nat, start: nat, d1: nat, d2: nat)
    requires n > 0 && start <= d1 < start + n && start <= d2 < start + n
    requires d1 % n == d2 % n
    ensures d1 == d2
  {
    var q1, q2 := d1 / n, d2 / n;
    assert d1 - d2 == (q1 - q2) * n;
    if q1 > q2 {
      MulAtLeast(q1 - q2, n);
    } else if q1 < q2 {
      MulAtLeast(q2 - q1, n);
    }
  }

  lemma MulAtLeast(k: int, n: int)
    requires k >= 1 && n > 0
    ensures k * n >= n
  {
    assert k * n == (k - 1) * n + n;
    assert (k - 1) * n >= 0;
  }

  /** Euclidean remainders are unique. */
  lemma ModUnique(x: int, n: int, q: int, r: int)
    requires n > 0 && x == q * n + r && 0 <= r < n
    ensures x % n == r
  {
    var q', r' := x / n, x % n;
    assert x == q' * n + r';
    assert (q - q') * n == r' - r;
    if q > q' {
      MulAtLeast(q - q', n);
    } else if q < q' {
      MulAtLeast(q' - q, n);
    }
  }

  /** GET /api/validate/:lang/:guess: whether the lower-cased guess is in the list. For an
      inherited name `list.includes` is not a function, so the handler throws. */
  function Validate(bank: Bank, lang: string, guess: string): (r: Result<bool, Error>)
    ensures r == Err(UnknownLanguage) <==> lang !in bank && lang !in PrototypeNames
    ensures r == Err(ServerError) <==> lang !in bank && lang in PrototypeNames
    ensures r.Ok? ==> lang in bank && (r.value <==> Lower(guess) in bank[lang])
  {
    if lang in bank then Ok(Lower(guess) in bank[lang])
    else if lang in PrototypeNames then Err(ServerError)
    else Err(UnknownLanguage)
  }

  /** Validation does not depend on the case the guess was typed in. */
  lemma ValidateIgnoresCase(bank: Bank, lang: string, guess: string)
    ensures Validate(bank, lang, Lower(guess)) == Validate(bank, lang, guess)
  {
    LowerIdempotent(guess);
  }

  /** Every word of a loaded list, in particular every word of the day, passes validation. */
  lemma ListedWordsValidate(bank: Bank, lang: string, w: string)
    requires WellFormed(bank) && lang in bank && w in bank[lang]
    ensures Validate(bank, lang, w) == Ok(true)
  {
    NormalFixed(w);
  }

  /** The word of the day is always accepted by the validator of the same language. */
  lemma DayWordValidates(bank: Bank, lang: string, d: nat)
    requires WellFormed(bank) && lang in bank && bank[lang] != []
    ensures DayWord(bank, lang, d).Ok? && DayWord(bank, lang, d).value.Some?
    ensures Validate(bank, lang, DayWord(bank, lang, d).value.value) == Ok(true)
  {
    ListedWordsValidate(bank, lang, DayWord(bank, lang, d).value.value);
  }

  /** Of a bank holding exactly the lists of en, es and fr, as LoadBank builds it: the names
      inherited from `Object.prototype` get no word of the day and make validation fail
      with a server error, and every other name without a list is refused as unknown. */
  lemma LoadedBankLanguages(bank: Bank, lang: string, d: nat, guess: string)
    requires bank.Keys == set l | l in Languages
    ensures DayWord(bank, lang, d).Err? <==> lang !in Languages && lang !in PrototypeNames
    ensures lang in PrototypeNames ==> DayWord(bank, lang, d) == Ok(None) && Validate(bank, lang, guess) == Err(ServerError)
  {
    assert lang in bank <==> lang in Languages;
    if lang in PrototypeNames {
      assert lang != "en" && lang != "es" && lang != "fr";
    }
  }
}
