/**
 * The browser-side pieces that carry logic: `escapeHtml`, a chain of five
 * one-character replacements with "&" replaced first, and the required-field
 * checks `createItem` makes before submitting.
 */
module Frontend {
  import opened Wrappers
  import opened Text
  import opened Records
  import CreateItem

  /** `s.replaceAll(c, rep)` for a one-character pattern. */
  function ReplaceChar(s: string, c: char, rep: string): (r: string)
    ensures c !in s ==> r == s
  {
    if s == [] then [] else (if s[0] == c then rep else [s[0]]) + ReplaceChar(s[1..], c, rep)
  }

  /**
   * `escapeHtml(s)`: `String(s ?? "")` followed by the five `replaceAll` calls
   * in source order; `None` stands for null and undefined.
   */
  function EscapeHtml(s: Option<string>): string {
    ReplaceChar(
      ReplaceChar(
        ReplaceChar(
          ReplaceChar(
            ReplaceChar(s.GetOr(""), '&', "&amp;"),
            '<', "&lt;"),
          '>', "&gt;"),
        '"', "&quot;"),
      '\'', "&#039;")
  }

  /** The characters of the chain, in order, and what each becomes. */
  const Specials: seq<char> := ['&', '<', '>', '"', '\'']
  const Entities: seq<string> := ["&amp;", "&lt;", "&gt;", "&quot;", "&#039;"]

  /** The step of the chain that replaces `c`, or 5 when none does. */
  function SpecialIndex(c: char): (j: nat)
    ensures j <= 5
    ensures j < 5 <==> c in Specials
    ensures j < 5 ==> Specials[j] == c
  {
    if c == '&' then 0
    else if c == '<' then 1
    else if c == '>' then 2
    else if c == '"' then 3
    else if c == '\'' then 4
    else 5
  }

  /** What character `c` becomes after the first `k` steps of the chain. */
  function EntityOf(c: char, k: nat): string {
    if SpecialIndex(c) < k && SpecialIndex(c) < 5 then Entities[SpecialIndex(c)] else [c]
  }

  /** Reference definition: every character replaced independently by its first `k` rules. */
  function EncodeWith(s: string, k: nat): string {
    if s == [] then [] else EntityOf(s[0], k) + EncodeWith(s[1..], k)
  }

  lemma {:induction false} ReplaceCharAppend(a: string, b: string, c: char, rep: string)
    ensures ReplaceChar(a + b, c, rep) == ReplaceChar(a, c, rep) + ReplaceChar(b, c, rep)
  {
    if a != [] {
      assert (a + b)[1..] == a[1..] + b;
      ReplaceCharAppend(a[1..], b, c, rep);
    } else {
      assert a + b == b;
    }
  }

  predicate IsMarkupChar(c: char) {
    c == '<' || c == '>' || c == '"' || c == '\''
  }

  /** No markup character occurs in `e`. */
  predicate Plain(e: string) {
    forall i | 0 <= i < |e| :: !IsMarkupChar(e[i])
  }

  /**
   * Each entity starts with its only "&", holds no markup character, and
   * differs from the others at its second character.
   */
  lemma EntityFacts(j: nat)
    requires j < 5
    ensures |Entities[j]| >= 2 && Entities[j][0] == '&' && '&' !in Entities[j][1..]
    ensures Plain(Entities[j])
    ensures forall m | 0 <= m < 5 && m != j :: Entities[m][1] != Entities[j][1]
  {
    assert Entities[0] == ['&', 'a', 'm', 'p', ';'];
    assert Entities[1] == ['&', 'l', 't', ';'];
    assert Entities[2] == ['&', 'g', 't', ';'];
    assert Entities[3] == ['&', 'q', 'u', 'o', 't', ';'];
    assert Entities[4] == ['&', '#', '0', '3', '9', ';'];
  }

  /** Every step after the first replaces a markup character. */
  lemma LaterSpecialsAreMarkup(k: nat)
    requires 1 <= k < 5
    ensures IsMarkupChar(Specials[k])
  {
  }

  lemma EntityStep(c: char, k: nat)
    requires k < 5
    ensures ReplaceChar(EntityOf(c, k), Specials[k], Entities[k]) == EntityOf(c, k + 1)
  {
    var j := SpecialIndex(c);
    if j < k {
      EntityFacts(j);
      LaterSpecialsAreMarkup(k);
      assert Specials[k] !in Entities[j];
    } else {
      assert [c][1..] == [];
      assert c == Specials[k] <==> j == k;
    }
  }

  /** Step `k + 1` of the chain applied to the first `k` steps' output gives the first `k + 1`. */
  lemma {:induction false} ChainStep(s: string, k: nat)
    requires k < 5
    ensures ReplaceChar(EncodeWith(s, k), Specials[k], Entities[k]) == EncodeWith(s, k + 1)
  {
    if s != [] {
      var e := EntityOf(s[0], k);
      var x := EncodeWith(s[1..], k);
      assert EncodeWith(s, k) == e + x;
      ReplaceCharAppend(e, x, Specials[k], Entities[k]);
      ChainStep(s[1..], k);
      EntityStep(s[0], k);
    }
  }

  lemma {:induction false} EncodeNone(s: string)
    ensures EncodeWith(s, 0) == s
  {
    if s != [] {
      EncodeNone(s[1..]);
    }
  }

  /** The chain of replacements equals the independent per-character encoding. */
  lemma EscapeHtmlIsEncoding(s: string)
    ensures EscapeHtml(Some(s)) == EncodeWith(s, 5)
  {
    EncodeNone(s);
    ChainStep(s, 0);
    ChainStep(s, 1);
    ChainStep(s, 2);
    ChainStep(s, 3);
    ChainStep(s, 4);
  }

  /** null and undefined escape to "". */
  lemma EscapeHtmlNull()
    ensures EscapeHtml(None) == ""
  {
  }

  /** True when `u` begins with one of the five entities. */
  predicate StartsEntity(u: string) {
    "&amp;" <= u || "&lt;" <= u || "&gt;" <= u || "&quot;" <= u || "&#039;" <= u
  }

  /** No markup character, and every "&" begins an entity. */
  predicate SafeText(r: string) {
    && (forall i | 0 <= i < |r| :: !IsMarkupChar(r[i]))
    && (forall i | 0 <= i < |r| && r[i] == '&' :: StartsEntity(r[i..]))
  }

  /** The encoding of one character is safe text on its own. */
  lemma EntitySafe(c: char)
    ensures Plain(EntityOf(c, 5))
    ensures EntityOf(c, 5)[0] == '&' ==> StartsEntity(EntityOf(c, 5))
    ensures '&' !in EntityOf(c, 5)[1..]
  {
    var j := SpecialIndex(c);
    if j < 5 {
      EntityFacts(j);
    }
  }

  lemma {:induction false} EncodeSafe(s: string)
    ensures SafeText(EncodeWith(s, 5))
  {
    if s != [] {
      var e := EntityOf(s[0], 5);
      var rest := EncodeWith(s[1..], 5);
      EncodeSafe(s[1..]);
      assert SafeText(rest);
      EntitySafe(s[0]);
      var r := e + rest;
      forall i | 0 <= i < |r|
        ensures !IsMarkupChar(r[i])
        ensures r[i] == '&' ==> StartsEntity(r[i..])
      {
        if i < |e| {
          assert r[i] == e[i];
          if i > 0 {
            assert e[i] == e[1..][i - 1];
          } else {
            assert e <= r[i..];
          }
        } else {
          assert r[i] == rest[i - |e|];
          assert r[i..] == rest[i - |e|..];
        }
      }
    }
  }

  /**
   * The escaped text holds none of `<`, `>`, `"` or `'`, and every `&` in it
   * begins one of the five entities.
   */
  lemma EscapeHtmlSafe(s: Option<string>)
    ensures SafeText(EscapeHtml(s))
  {
    EscapeHtmlIsEncoding(s.GetOr(""));
    EncodeSafe(s.GetOr(""));
  }

  predicate HasSpecial(s: string) {
    exists i | 0 <= i < |s| :: s[i] in Specials
  }

  lemma {:induction false} EncodeLength(s: string)
    ensures |EncodeWith(s, 5)| >= |s|
    ensures HasSpecial(s) ==> |EncodeWith(s, 5)| > |s|
    ensures !HasSpecial(s) ==> EncodeWith(s, 5) == s
  {
    if s != [] {
      EncodeLength(s[1..]);
      var j := SpecialIndex(s[0]);
      if j < 5 {
        EntityFacts(j);
      } else if HasSpecial(s) {
        var i :| 0 <= i < |s| && s[i] in Specials;
        assert s[1..][i - 1] == s[i];
      } else {
        assert !HasSpecial(s[1..]) by {
          forall i | 0 <= i < |s[1..]|
            ensures s[1..][i] !in Specials
          {
            assert s[1..][i] == s[i + 1];
          }
        }
        assert s == [s[0]] + s[1..];
      }
    }
  }

  /** Text with none of the five characters is returned unchanged, and only such text. */
  lemma EscapeHtmlIdentityIff(s: string)
    ensures EscapeHtml(Some(s)) == s <==> !HasSpecial(s)
  {
    EscapeHtmlIsEncoding(s);
    EncodeLength(s);
  }

  /** `u.replaceAll(p, q)` for a multi-character pattern: left to right, non-overlapping. */
  function ReplaceStr(u: string, p: string, q: string): string
    requires p != []
    decreases |u|
  {
    if u == [] then []
    else if p <= u then q + ReplaceStr(u[|p|..], p, q)
    else [u[0]] + ReplaceStr(u[1..], p, q)
  }

  /** The inverse chain: the last `k` entities replaced back, latest first. */
  function UnescapeSteps(t: string, k: nat): string
    requires k <= 5
    decreases k
  {
    if k == 0 then t else UnescapeSteps(ReplaceStr(t, Entities[k - 1], [Specials[k - 1]]), k - 1)
  }

  /** Undoing the whole chain: "&#039;", "&quot;", "&gt;", "&lt;" and finally "&amp;" replaced back. */
  function UnescapeHtml(t: string): string {
    UnescapeSteps(t, 5)
  }

  lemma {:induction false} ReplaceStrSkipPlain(w: string, x: string, p: string, q: string)
    requires p != [] && p[0] == '&' && '&' !in w
    ensures ReplaceStr(w + x, p, q) == w + ReplaceStr(x, p, q)
  {
    if w != [] {
      assert (w + x)[0] == w[0];
      assert !(p <= w + x);
      assert (w + x)[1..] == w[1..] + x;
      ReplaceStrSkipPlain(w[1..], x, p, q);
    } else {
      assert w + x == x;
    }
  }

  lemma ReplaceStrMatch(x: string, p: string, q: string)
    requires p != []
    ensures ReplaceStr(p + x, p, q) == q + ReplaceStr(x, p, q)
  {
    assert (p + x)[|p|..] == x;
  }

  /** Replacing one entity leaves alone a different entity at the front. */
  lemma ReplaceStrSkipEntity(j: nat, m: nat, x: string, q: string)
    requires j < 5 && m < 5 && j != m
    ensures ReplaceStr(Entities[j] + x, Entities[m], q) == Entities[j] + ReplaceStr(x, Entities[m], q)
  {
    var e, p := Entities[j], Entities[m];
    EntityFacts(j);
    EntityFacts(m);
    assert (e + x)[1] == e[1];
    assert !(p <= e + x);
    assert (e + x)[1..] == e[1..] + x;
    ReplaceStrSkipPlain(e[1..], x, p, q);
    assert [e[0]] + e[1..] == e;
  }

  /** Undoing step `k + 1` on one character's encoding. */
  lemma UndoEntity(c: char, k: nat, x: string)
    requires k < 5
    ensures ReplaceStr(EntityOf(c, k + 1) + x, Entities[k], [Specials[k]])
         == EntityOf(c, k) + ReplaceStr(x, Entities[k], [Specials[k]])
  {
    var j := SpecialIndex(c);
    EntityFacts(k);
    if j == k {
      ReplaceStrMatch(x, Entities[k], [Specials[k]]);
    } else if j < k {
      ReplaceStrSkipEntity(j, k, x, [Specials[k]]);
    } else {
      assert c != '&';
      ReplaceStrSkipPlain([c], x, Entities[k], [Specials[k]]);
    }
  }

  /** Undoing step `k + 1` of the chain recovers the first `k` steps' output. */
  lemma {:induction false} UndoStep(s: string, k: nat)
    requires k < 5
    ensures ReplaceStr(EncodeWith(s, k + 1), Entities[k], [Specials[k]]) == EncodeWith(s, k)
  {
    if s != [] {
      UndoStep(s[1..], k);
      UndoEntity(s[0], k, EncodeWith(s[1..], k + 1));
    }
  }

  lemma {:induction false} UnescapeEncoded(s: string, k: nat)
    requires k <= 5
    ensures UnescapeSteps(EncodeWith(s, k), k) == s
  {
    if k == 0 {
      EncodeNone(s);
    } else {
      UndoStep(s, k - 1);
      UnescapeEncoded(s, k - 1);
    }
  }

  /** Replacing the five entities back, in reverse order, recovers the original text. */
  lemma UnescapeEscape(s: string)
    ensures UnescapeHtml(EscapeHtml(Some(s))) == s
  {
    EscapeHtmlIsEncoding(s);
    UnescapeEncoded(s, 5);
  }

  /** Why `createItem` refuses to submit. */
  datatype ClientRefusal = TitleRequired | BodyRequired

  /** The checks `createItem` makes before submitting: trimmed title, then trimmed body. */
  function ClientCheck(title: string, body: string): Option<ClientRefusal> {
    if Strip(title) == "" then Some(TitleRequired)
    else if Strip(body) == "" then Some(BodyRequired)
    else None
  }

  /**
   * A blank title is refused, whatever the body, and it is the only reason for
   * TitleRequired; a blank body is refused only after the title passed.
   */
  lemma ClientCheckOrder(title: string, body: string)
    ensures ClientCheck(title, body) == Some(TitleRequired) <==> AllSpace(title)
    ensures ClientCheck(title, body) == Some(BodyRequired) <==> !AllSpace(title) && AllSpace(body)
    ensures ClientCheck(title, body) == None <==> !AllSpace(title) && !AllSpace(body)
  {
    StripEmptyIff(title);
    StripEmptyIff(body);
  }

  /** Whatever the server accepts from the form, the client check lets through. */
  lemma ServerStricterThanClient(title: string, body: string, category: string, priority: string, author: string)
    requires CreateItem.ValidateFields(Str(title), Str(body), Str(category), Str(priority), Str(author)).Ok?
    ensures ClientCheck(title, body) == None
  {
    CreateItem.ValidateAcceptsIff(Str(title), Str(body), Str(category), Str(priority), Str(author));
  }
}
