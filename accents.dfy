/**
 * The accent helpers of the `String` class: `removeAccents`, which turns the
 * HTML entities of accented letters into the bare letter, and
 * `accents2entities`, which translates between accented characters and
 * their HTML entities in either direction.
 */
module Accents {
  import opened Sequences
  import opened Strings

  // ---------------------------------------------------------------------------
  // HTML entities of accented letters
  // ---------------------------------------------------------------------------

  /** The accent marks that have a named HTML entity used here. */
  datatype Accent = Grave | Acute | Circ | Tilde | Uml | Ring | Cedil

  /** The part of an entity name after its letter, as in `&aacute;`. */
  function AccentName(a: Accent): (n: string)
    ensures |n| >= 3 && forall i :: 0 <= i < |n| ==> IsLower(n[i])
  {
    match a
    case Grave => "grave"
    case Acute => "acute"
    case Circ => "circ"
    case Tilde => "tilde"
    case Uml => "uml"
    case Ring => "ring"
    case Cedil => "cedil"
  }

  /** The name of the entity for `letter` carrying the accent `a`, such as `aacute`. */
  function EntityName(letter: char, a: Accent): (n: string)
    ensures |n| > 1 && n[0] == letter && n[1..] == AccentName(a)
    ensures IsLetter(letter) ==> forall i :: 0 <= i < |n| ==> IsLetter(n[i])
  {
    [letter] + AccentName(a)
  }

  /** Two entity names are equal only for the same letter and accent. */
  lemma EntityNameInjective(l1: char, a1: Accent, l2: char, a2: Accent)
    requires EntityName(l1, a1) == EntityName(l2, a2)
    ensures l1 == l2 && a1 == a2
  {
    assert EntityName(l1, a1)[0] == l1 && EntityName(l2, a2)[0] == l2;
    var n1, n2 := AccentName(a1), AccentName(a2);
    assert n1 == EntityName(l1, a1)[1..] && n2 == EntityName(l2, a2)[1..];
    assert n1[0] == n2[0] && n1[1] == n2[1];
  }

  /** The character reference `&name;`. */
  function Reference(name: string): (r: string)
    ensures |r| == |name| + 2 && r[0] == '&' && r[|r| - 1] == ';'
    ensures forall i :: 0 <= i < |name| ==> r[i + 1] == name[i]
  {
    "&" + name + ";"
  }

  /**
   * References are prefix-free: two references whose names hold no `;` both
   * start a text only if they are the same reference.
   */
  lemma ReferencesPrefixFree(n1: string, n2: string, s: string)
    requires ';' !in n1 && ';' !in n2
    requires Reference(n1) <= s && Reference(n2) <= s
    ensures n1 == n2
  {
    var r1, r2 := Reference(n1), Reference(n2);
    assert |n1| == |n2| by {
      var k := if |n1| < |n2| then |n1| else |n2|;
      assert r1[k + 1] == s[k + 1] == r2[k + 1];
    }
    forall i | 0 <= i < |n1| ensures n1[i] == n2[i] {
      assert r1[i + 1] == s[i + 1] == r2[i + 1];
    }
  }

  // ---------------------------------------------------------------------------
  // removeAccents
  // ---------------------------------------------------------------------------

  /**
   * The patterns of `removeAccents`, in their order: each letter with the
   * accents whose entities it replaces.
   */
  const EntityGroups: seq<(char, seq<Accent>)> := [
    ('A', [Grave, Acute, Circ, Tilde, Uml, Ring]),
    ('a', [Grave, Acute, Circ, Tilde, Uml, Ring]),
    ('E', [Grave, Acute, Circ, Uml]),
    ('e', [Grave, Acute, Circ, Uml]),
    ('I', [Grave, Acute, Circ, Uml]),
    ('i', [Grave, Acute, Circ, Uml]),
    ('O', [Grave, Acute, Circ, Tilde, Uml]),
    ('o', [Grave, Acute, Circ, Tilde, Uml]),
    ('U', [Grave, Acute, Circ, Uml]),
    ('u', [Grave, Acute, Circ, Uml]),
    ('C', [Cedil]),
    ('c', [Cedil]),
    ('N', [Tilde]),
    ('n', [Tilde]),
    ('Y', [Acute]),
    ('y', [Acute, Uml])
  ]

  /** Every pattern replaces by a letter. */
  lemma EntityGroupsLetters()
    ensures forall g :: g in EntityGroups ==> IsLetter(g.0)
  {
  }

  /**
   * The alternative of the pattern `&L<accent>;|...` that matches at the start
   * of `s`, if any: the alternatives are tried in order.
   */
  function MatchAt(letter: char, accents: seq<Accent>, s: string): Option<Accent>
  {
    if |accents| == 0 then None
    else if Reference(EntityName(letter, accents[0])) <= s then Some(accents[0])
    else MatchAt(letter, accents[1..], s)
  }

  /**
   * `MatchAt` finds an alternative exactly when one of them starts the text,
   * and what it finds does start it.
   */
  lemma {:induction false} MatchAtFinds(letter: char, accents: seq<Accent>, s: string)
    ensures MatchAt(letter, accents, s).Some? ==>
      MatchAt(letter, accents, s).value in accents && Reference(EntityName(letter, MatchAt(letter, accents, s).value)) <= s
    ensures MatchAt(letter, accents, s).None? ==> forall a :: a in accents ==> !(Reference(EntityName(letter, a)) <= s)
  {
    if |accents| > 0 && !(Reference(EntityName(letter, accents[0])) <= s) {
      MatchAtFinds(letter, accents[1..], s);
      assert forall a :: a in accents ==> a == accents[0] || a in accents[1..];
    }
  }

  /**
   * One `preg_replace` pass of the pattern for `letter`: scanning from the
   * left, every match is replaced by the letter and scanning resumes after it.
   * A text without `&` has nothing to match.
   */
  function ReplacePass(letter: char, accents: seq<Accent>, s: string): string
    decreases |s|
  {
    if |s| == 0 then []
    else if !Touches(letter, s, 0) then [s[0]] + ReplacePass(letter, accents, s[1..])
    else match MatchAt(letter, accents, s)
      case Some(a) =>
        MatchAtFinds(letter, accents, s);
        [letter] + ReplacePass(letter, accents, s[|Reference(EntityName(letter, a))|..])
      case None => [s[0]] + ReplacePass(letter, accents, s[1..])
  }

  /** `preg_replace` with arrays of patterns and replacements: one pass per pattern, in order. */
  function ApplyGroups(groups: seq<(char, seq<Accent>)>, s: string): string
  {
    if |groups| == 0 then s
    else ApplyGroups(groups[1..], ReplacePass(groups[0].0, groups[0].1, s))
  }

  /**
   * `String::removeAccents` with `$comes_with_entities` set: the text already
   * holds HTML entities, and the entity of every listed accented letter is
   * replaced by the bare letter.
   */
  function RemoveAccents(s: string): string
  {
    ApplyGroups(EntityGroups, s)
  }

  /** Position `i` of `s` is a `&` followed by `letter`: only there can a pass for `letter` match. */
  predicate Touches(letter: char, s: string, i: int)
  {
    0 <= i < |s| - 1 && s[i] == '&' && s[i + 1] == letter
  }

  /** Where a text does not start with `&` and the pass's letter, a pass copies its first character. */
  lemma PassStep(letter: char, accents: seq<Accent>, s: string)
    requires |s| > 0 && !Touches(letter, s, 0)
    ensures ReplacePass(letter, accents, s) == [s[0]] + ReplacePass(letter, accents, s[1..])
  {
  }

  /** A pass leaves a text unchanged when no `&` in it is followed by the pass's letter. */
  lemma {:induction false} PassUntouched(letter: char, accents: seq<Accent>, s: string)
    requires forall i :: 0 <= i < |s| ==> !Touches(letter, s, i)
    ensures ReplacePass(letter, accents, s) == s
    decreases |s|
  {
    if |s| > 0 {
      PassStep(letter, accents, s);
      UntouchedTail(letter, s);
      PassUntouched(letter, accents, s[1..]);
      assert [s[0]] + s[1..] == s;
    }
  }

  /** A text none of whose positions a pass touches has a tail with the same property. */
  lemma UntouchedTail(letter: char, s: string)
    requires |s| > 0 && forall i :: 0 <= i < |s| ==> !Touches(letter, s, i)
    ensures forall i :: 0 <= i < |s| - 1 ==> !Touches(letter, s[1..], i)
  {
    forall i | 0 <= i < |s| - 1 ensures !Touches(letter, s[1..], i) {
      assert !Touches(letter, s, i + 1);
    }
  }

  /** The passes whose letter no `&` in the text is followed by leave it unchanged. */
  lemma {:induction false} ApplyUntouched(groups: seq<(char, seq<Accent>)>, s: string)
    requires forall g, i :: g in groups && 0 <= i < |s| ==> !Touches(g.0, s, i)
    ensures ApplyGroups(groups, s) == s
  {
    if |groups| > 0 {
      assert groups[0] in groups;
      PassUntouched(groups[0].0, groups[0].1, s);
      assert forall g :: g in groups[1..] ==> g in groups;
      ApplyUntouched(groups[1..], s);
    }
  }

  /**
   * A piece of a text that holds HTML entities: a plain character, or a
   * character reference `&name;`.
   */
  datatype Piece = Plain(c: char) | Ref(name: string)

  /** Plain characters are not `&`, and a reference's name holds neither `&` nor `;`. */
  predicate WellFormed(ps: seq<Piece>)
  {
    forall p :: p in ps ==>
      match p
      case Plain(c) => c != '&'
      case Ref(name) => '&' !in name && ';' !in name
  }

  function RenderPiece(p: Piece): (s: string)
    ensures |s| > 0
  {
    match p
    case Plain(c) => [c]
    case Ref(name) => Reference(name)
  }

  /** The text the pieces spell. */
  function Render(ps: seq<Piece>): (s: string)
    ensures |s| >= |ps|
  {
    if |ps| == 0 then [] else RenderPiece(ps[0]) + Render(ps[1..])
  }

  /** The reference `name` is among the entities of the pattern for `letter`. */
  predicate InGroup(letter: char, accents: seq<Accent>, name: string)
  {
    exists a :: a in accents && name == EntityName(letter, a)
  }

  /** What one pass makes of a piece: a reference of the group becomes its letter. */
  function PassPiece(letter: char, accents: seq<Accent>, p: Piece): (q: Piece)
    ensures p.Plain? ==> q == p
    ensures p.Ref? ==> q == (if InGroup(letter, accents, p.name) then Plain(letter) else p)
  {
    if p.Ref? && InGroup(letter, accents, p.name) then Plain(letter) else p
  }

  /** One pass, piece by piece. */
  function PassOver(letter: char, accents: seq<Accent>, ps: seq<Piece>): (r: seq<Piece>)
    ensures |r| == |ps|
  {
    if |ps| == 0 then [] else [PassPiece(letter, accents, ps[0])] + PassOver(letter, accents, ps[1..])
  }

  /**
   * A text transformation that copies any character other than `&` ahead of
   * what it makes of the rest copies a whole prefix without `&`.
   */
  lemma {:induction false} CopiesPlainPrefix(f: string -> string, w: string, t: string)
    requires forall c, u :: c != '&' ==> f([c] + u) == [c] + f(u)
    requires '&' !in w
    ensures f(w + t) == w + f(t)
  {
    if |w| == 0 {
      assert w + t == t;
    } else {
      assert w[0] in w;
      assert '&' !in w[1..] by { assert forall c :: c in w[1..] ==> c in w; }
      CopiesPlainPrefix(f, w[1..], t);
      assert w + t == [w[0]] + (w[1..] + t);
      assert f(w + t) == [w[0]] + f(w[1..] + t);
      assert [w[0]] + w[1..] == w;
    }
  }

  /** A pass copies a prefix that holds no `&` at all. */
  lemma PassPlain(letter: char, accents: seq<Accent>, w: string, t: string)
    requires '&' !in w
    ensures ReplacePass(letter, accents, w + t) == w + ReplacePass(letter, accents, t)
  {
    var f := (x: string) => ReplacePass(letter, accents, x);
    forall c, u | c != '&' ensures f([c] + u) == [c] + f(u) {
      PassPlainHead(letter, accents, c, u);
    }
    CopiesPlainPrefix(f, w, t);
  }

  lemma PassPlainHead(letter: char, accents: seq<Accent>, c: char, t: string)
    requires c != '&'
    ensures ReplacePass(letter, accents, [c] + t) == [c] + ReplacePass(letter, accents, t)
  {
    PassStep(letter, accents, [c] + t);
    assert ([c] + t)[1..] == t;
  }

  /**
   * A pass over a text that starts with a well-formed reference replaces it
   * by the letter exactly when the reference belongs to the group.
   */
  lemma PassRef(letter: char, accents: seq<Accent>, name: string, t: string)
    requires IsLetter(letter) && '&' !in name && ';' !in name
    ensures ReplacePass(letter, accents, Reference(name) + t)
      == (if InGroup(letter, accents, name) then [letter] else Reference(name)) + ReplacePass(letter, accents, t)
  {
    if InGroup(letter, accents, name) {
      PassRefMatched(letter, accents, name, t);
    } else {
      PassRefUnmatched(letter, accents, name, t);
    }
  }

  /** A reference of the group is matched, and matched as a whole. */
  lemma PassRefMatched(letter: char, accents: seq<Accent>, name: string, t: string)
    requires IsLetter(letter) && InGroup(letter, accents, name)
    ensures ReplacePass(letter, accents, Reference(name) + t) == [letter] + ReplacePass(letter, accents, t)
  {
    var s := Reference(name) + t;
    var a :| a in accents && name == EntityName(letter, a);
    assert Reference(name) <= s;
    assert Touches(letter, s, 0) by { assert s[1] == Reference(name)[1] == name[0]; }
    MatchAtFinds(letter, accents, s);
    assert MatchAt(letter, accents, s).Some?;
    var b := MatchAt(letter, accents, s).value;
    EntityNameClean(letter, a);
    EntityNameClean(letter, b);
    ReferencesPrefixFree(EntityName(letter, b), name, s);
    assert s[|Reference(name)|..] == t;
  }

  /** No alternative of the pattern matches at a reference outside the group. */
  lemma NoMatchOutsideGroup(letter: char, accents: seq<Accent>, name: string, t: string)
    requires IsLetter(letter) && ';' !in name && !InGroup(letter, accents, name)
    ensures MatchAt(letter, accents, Reference(name) + t).None?
  {
    var s := Reference(name) + t;
    if MatchAt(letter, accents, s).Some? {
      MatchAtFinds(letter, accents, s);
      var b := MatchAt(letter, accents, s).value;
      assert Reference(name) <= s;
      EntityNameClean(letter, b);
      ReferencesPrefixFree(EntityName(letter, b), name, s);
      assert false;
    }
  }

  /** A reference outside the group is copied: its `&` is passed over and the rest holds no `&`. */
  lemma PassRefUnmatched(letter: char, accents: seq<Accent>, name: string, t: string)
    requires IsLetter(letter) && '&' !in name && ';' !in name && !InGroup(letter, accents, name)
    ensures ReplacePass(letter, accents, Reference(name) + t) == Reference(name) + ReplacePass(letter, accents, t)
  {
    var s := Reference(name) + t;
    NoMatchOutsideGroup(letter, accents, name, t);
    assert ReplacePass(letter, accents, s) == [s[0]] + ReplacePass(letter, accents, s[1..]);
    assert s[1..] == name + ";" + t;
    PassPlain(letter, accents, name + ";", t);
  }

  /** A pass over a text that starts with a well-formed piece handles that piece on its own. */
  lemma PassHead(letter: char, accents: seq<Accent>, p: Piece, t: string)
    requires IsLetter(letter) && WellFormed([p])
    ensures ReplacePass(letter, accents, RenderPiece(p) + t)
      == RenderPiece(PassPiece(letter, accents, p)) + ReplacePass(letter, accents, t)
  {
    assert p in [p];
    match p
    case Plain(c) => PassPlain(letter, accents, [c], t);
    case Ref(name) => PassRef(letter, accents, name, t);
  }

  /**
   * On a well-formed text, one pass replaces exactly the references of its
   * group by the group's letter and leaves every other piece as it was.
   */
  lemma {:induction false} PassPieces(letter: char, accents: seq<Accent>, ps: seq<Piece>)
    requires IsLetter(letter) && WellFormed(ps)
    ensures ReplacePass(letter, accents, Render(ps)) == Render(PassOver(letter, accents, ps))
    ensures WellFormed(PassOver(letter, accents, ps))
  {
    if |ps| > 0 {
      assert WellFormed([ps[0]]) && WellFormed(ps[1..]) by {
        assert forall p :: p in [ps[0]] || p in ps[1..] ==> p in ps;
      }
      PassPieces(letter, accents, ps[1..]);
      PassHead(letter, accents, ps[0], Render(ps[1..]));
      var q := PassOver(letter, accents, ps);
      assert q == [q[0]] + PassOver(letter, accents, ps[1..]);
      assert WellFormed(q) by {
        assert forall p :: p in q ==> p == q[0] || p in q[1..];
      }
    }
  }

  /** Whether some pattern lists the reference `name`. */
  predicate Listed(groups: seq<(char, seq<Accent>)>, name: string)
  {
    exists g :: g in groups && InGroup(g.0, g.1, name)
  }

  /** What all passes make of a piece: a listed reference becomes the first letter of its name. */
  function Stripped(groups: seq<(char, seq<Accent>)>, ps: seq<Piece>): (r: seq<Piece>)
    ensures |r| == |ps|
  {
    if |ps| == 0 then []
    else
      var p := if ps[0].Ref? && |ps[0].name| > 0 && Listed(groups, ps[0].name) then Plain(ps[0].name[0]) else ps[0];
      [p] + Stripped(groups, ps[1..])
  }

  /** Stripping after one pass with the remaining patterns is stripping with all of them. */
  lemma {:induction false} StrippedAfterPass(groups: seq<(char, seq<Accent>)>, ps: seq<Piece>)
    requires |groups| > 0
    ensures Stripped(groups[1..], PassOver(groups[0].0, groups[0].1, ps)) == Stripped(groups, ps)
  {
    if |ps| > 0 {
      StrippedAfterPass(groups, ps[1..]);
      var g := groups[0];
      if ps[0].Ref? {
        var name := ps[0].name;
        if InGroup(g.0, g.1, name) {
          var a :| a in g.1 && name == EntityName(g.0, a);
          assert g in groups;
        } else {
          assert Listed(groups, name) ==> Listed(groups[1..], name) by {
            if Listed(groups, name) {
              var h :| h in groups && InGroup(h.0, h.1, name);
              assert h != g;
              assert h in groups[1..] by { assert groups == [g] + groups[1..]; }
            }
          }
          assert Listed(groups[1..], name) ==> Listed(groups, name) by {
            assert forall h :: h in groups[1..] ==> h in groups;
          }
        }
      }
    }
  }

  /**
   * On a well-formed text, the passes replace every reference some pattern
   * lists by the first letter of its name, and leave plain characters and
   * all other references untouched.
   */
  lemma {:induction false} ApplyPieces(groups: seq<(char, seq<Accent>)>, ps: seq<Piece>)
    requires forall g :: g in groups ==> IsLetter(g.0)
    requires WellFormed(ps)
    ensures ApplyGroups(groups, Render(ps)) == Render(Stripped(groups, ps))
  {
    if |groups| == 0 {
      StrippedNone(ps);
    } else {
      assert groups[0] in groups;
      PassPieces(groups[0].0, groups[0].1, ps);
      assert forall g :: g in groups[1..] ==> g in groups;
      ApplyPieces(groups[1..], PassOver(groups[0].0, groups[0].1, ps));
      StrippedAfterPass(groups, ps);
    }
  }

  lemma {:induction false} StrippedNone(ps: seq<Piece>)
    ensures Stripped([], ps) == ps
  {
    if |ps| > 0 {
      StrippedNone(ps[1..]);
      assert [ps[0]] + ps[1..] == ps;
    }
  }

  /** The pieces spelling a text character by character. */
  function Plains(w: string): (ps: seq<Piece>)
    ensures |ps| == |w| && forall i :: 0 <= i < |w| ==> ps[i] == Plain(w[i])
  {
    if |w| == 0 then [] else [Plain(w[0])] + Plains(w[1..])
  }

  lemma {:induction false} RenderConcat(a: seq<Piece>, b: seq<Piece>)
    ensures Render(a + b) == Render(a) + Render(b)
  {
    if |a| == 0 {
      assert a + b == b;
    } else {
      assert (a + b)[0] == a[0] && (a + b)[1..] == a[1..] + b;
      RenderConcat(a[1..], b);
    }
  }

  lemma {:induction false} StrippedConcat(groups: seq<(char, seq<Accent>)>, a: seq<Piece>, b: seq<Piece>)
    ensures Stripped(groups, a + b) == Stripped(groups, a) + Stripped(groups, b)
  {
    if |a| == 0 {
      assert a + b == b;
    } else {
      assert (a + b)[0] == a[0] && (a + b)[1..] == a[1..] + b;
      StrippedConcat(groups, a[1..], b);
    }
  }

  /** Plain characters other than `&` spell themselves and survive every pass. */
  lemma {:induction false} PlainsRender(groups: seq<(char, seq<Accent>)>, w: string)
    requires '&' !in w
    ensures Render(Plains(w)) == w && WellFormed(Plains(w)) && Stripped(groups, Plains(w)) == Plains(w)
  {
    if |w| > 0 {
      assert w[0] in w;
      assert forall c :: c in w[1..] ==> c in w;
      PlainsRender(groups, w[1..]);
      var ps := Plains(w);
      assert ps[1..] == Plains(w[1..]);
      assert [w[0]] + w[1..] == w;
      assert WellFormed(ps) by {
        assert forall p :: p in ps ==> p == ps[0] || p in ps[1..];
      }
    }
  }

  /**
   * `removeAccents` on a text whose every `&` opens a reference: each entity
   * of a listed accented letter becomes that letter, and everything else is
   * kept.
   */
  lemma RemoveAccentsPieces(ps: seq<Piece>)
    requires WellFormed(ps)
    ensures RemoveAccents(Render(ps)) == Render(Stripped(EntityGroups, ps))
  {
    EntityGroupsLetters();
    ApplyPieces(EntityGroups, ps);
  }

  /** A text without `&` holds no entity, and `removeAccents` returns it as it was. */
  lemma RemoveAccentsPlainText(s: string)
    requires '&' !in s
    ensures RemoveAccents(s) == s
  {
    forall g, i | g in EntityGroups && 0 <= i < |s| ensures !Touches(g.0, s, i) {
      assert s[i] in s;
    }
    ApplyUntouched(EntityGroups, s);
  }

  /** The name of an entity of a letter holds neither `&` nor `;`. */
  lemma EntityNameClean(letter: char, a: Accent)
    requires IsLetter(letter)
    ensures '&' !in EntityName(letter, a) && ';' !in EntityName(letter, a)
  {
  }

  /** The pieces of a listed entity followed by plain text are well formed. */
  lemma ListedEntityWellFormed(letter: char, a: Accent, w: string)
    requires IsLetter(letter) && '&' !in w
    ensures WellFormed([Ref(EntityName(letter, a))] + Plains(w))
  {
    var ps := [Ref(EntityName(letter, a))] + Plains(w);
    PlainsRender([], w);
    EntityNameClean(letter, a);
    assert forall p :: p in ps ==> p == ps[0] || p in Plains(w);
  }

  /** The pieces of a listed entity followed by plain text spell the reference, then the text. */
  lemma ListedEntityRendered(name: string, w: string)
    requires '&' !in w
    ensures Render([Ref(name)] + Plains(w)) == Reference(name) + w
  {
    PlainsRender([], w);
    RenderConcat([Ref(name)], Plains(w));
    assert Render([Ref(name)]) == Reference(name) + Render([]);
  }

  /** Stripping those pieces leaves the bare letter followed by the plain text. */
  lemma ListedEntityStripped(g: (char, seq<Accent>), a: Accent, w: string)
    requires g in EntityGroups && a in g.1 && '&' !in w
    ensures Render(Stripped(EntityGroups, [Ref(EntityName(g.0, a))] + Plains(w))) == [g.0] + w
  {
    var name := EntityName(g.0, a);
    PlainsRender(EntityGroups, w);
    assert InGroup(g.0, g.1, name);
    StrippedConcat(EntityGroups, [Ref(name)], Plains(w));
    assert Stripped(EntityGroups, [Ref(name)]) == [Plain(g.0)] + Stripped(EntityGroups, []);
    RenderConcat([Plain(g.0)], Plains(w));
    assert Render([Plain(g.0)]) == [g.0] + Render([]);
  }

  /**
   * Every listed entity, followed by text without `&`, loses its accent: the
   * reference becomes the letter it names and the rest is kept.
   */
  lemma RemoveAccentsListedEntity(g: (char, seq<Accent>), a: Accent, w: string)
    requires g in EntityGroups && a in g.1 && '&' !in w
    ensures RemoveAccents(Reference(EntityName(g.0, a)) + w) == [g.0] + w
  {
    assert IsLetter(g.0) by { EntityGroupsLetters(); }
    ListedEntityWellFormed(g.0, a, w);
    ListedEntityRendered(EntityName(g.0, a), w);
    ListedEntityStripped(g, a, w);
    RemoveAccentsPieces([Ref(EntityName(g.0, a))] + Plains(w));
  }

  // ---------------------------------------------------------------------------
  // accents2entities
  // ---------------------------------------------------------------------------

  /**
   * The translation table of `accents2entities`, read forwards: the letter
   * and accent of the entity for each accented character it lists.
   */
  function EntityOf(c: char): (e: Option<(char, Accent)>)
    ensures e.Some? ==> IsLetter(e.value.0) && c as int >= 128
  {
    match c
    case 'á' => Some(('a', Acute))
    case 'ã' => Some(('a', Tilde))
    case 'â' => Some(('a', Circ))
    case 'à' => Some(('a', Grave))
    case 'Á' => Some(('A', Acute))
    case 'Ã' => Some(('A', Tilde))
    case 'Â' => Some(('A', Circ))
    case 'À' => Some(('A', Grave))
    case 'é' => Some(('e', Acute))
    case 'ê' => Some(('e', Circ))
    case 'É' => Some(('E', Acute))
    case 'Ê' => Some(('E', Circ))
    case 'í' => Some(('i', Acute))
    case 'Í' => Some(('I', Acute))
    case 'ó' => Some(('o', Acute))
    case 'ô' => Some(('o', Circ))
    case 'õ' => Some(('o', Tilde))
    case 'Ó' => Some(('O', Acute))
    case 'Ô' => Some(('O', Circ))
    case 'Õ' => Some(('O', Tilde))
    case 'ú' => Some(('u', Acute))
    case 'Ú' => Some(('U', Acute))
    case 'ç' => Some(('c', Cedil))
    case 'Ç' => Some(('C', Cedil))
    case _ => None
  }

  /** The same table after `array_flip`: the accented character of each listed entity. */
  function AccentedChar(letter: char, a: Accent): (c: Option<char>)
    ensures c.Some? ==> IsLetter(letter)
  {
    match (letter, a)
    case ('a', Acute) => Some('á')
    case ('a', Tilde) => Some('ã')
    case ('a', Circ) => Some('â')
    case ('a', Grave) => Some('à')
    case ('A', Acute) => Some('Á')
    case ('A', Tilde) => Some('Ã')
    case ('A', Circ) => Some('Â')
    case ('A', Grave) => Some('À')
    case ('e', Acute) => Some('é')
    case ('e', Circ) => Some('ê')
    case ('E', Acute) => Some('É')
    case ('E', Circ) => Some('Ê')
    case ('i', Acute) => Some('í')
    case ('I', Acute) => Some('Í')
    case ('o', Acute) => Some('ó')
    case ('o', Circ) => Some('ô')
    case ('o', Tilde) => Some('õ')
    case ('O', Acute) => Some('Ó')
    case ('O', Circ) => Some('Ô')
    case ('O', Tilde) => Some('Õ')
    case ('u', Acute) => Some('ú')
    case ('U', Acute) => Some('Ú')
    case ('c', Cedil) => Some('ç')
    case ('C', Cedil) => Some('Ç')
    case _ => None
  }

  /**
   * The table is a bijection, so `array_flip` loses no row: a character maps
   * to an entity exactly when the flipped table maps that entity back to it.
   */
  lemma TableFlips(c: char, letter: char, a: Accent)
    ensures EntityOf(c) == Some((letter, a)) <==> AccentedChar(letter, a) == Some(c)
  {
    if AccentedChar(letter, a).Some? {
      match (letter, a) {
        case ('a', _) =>
        case ('A', _) =>
        case ('e', _) =>
        case ('E', _) =>
        case ('i', _) =>
        case ('I', _) =>
        case ('o', _) =>
        case ('O', _) =>
        case ('u', _) =>
        case ('U', _) =>
        case ('c', _) =>
        case ('C', _) =>
        case _ =>
      }
    }
  }

  const AllAccents: seq<Accent> := [Grave, Acute, Circ, Tilde, Uml, Ring, Cedil]

  /**
   * With `$opposite`, the entity of the flipped table whose reference starts
   * `s`, if any.
   */
  function LeadingEntity(s: string): (m: Option<(char, Accent)>)
    ensures m.Some? ==> Reference(EntityName(m.value.0, m.value.1)) <= s && AccentedChar(m.value.0, m.value.1).Some?
    ensures |s| > 0 && s[0] != '&' ==> m.None?
  {
    if |s| < 2 then None
    else match MatchAt(s[1], AllAccents, s)
      case Some(a) =>
        MatchAtFinds(s[1], AllAccents, s);
        if AccentedChar(s[1], a).Some? then Some((s[1], a)) else None
      case None => None
  }

  /**
   * At most one entity of the table starts a text, and `LeadingEntity` finds
   * it: this is the key `strtr` replaces there, whatever order it tries the
   * keys in.
   */
  lemma LeadingEntityFinds(s: string, letter: char, a: Accent)
    requires AccentedChar(letter, a).Some? && Reference(EntityName(letter, a)) <= s
    ensures LeadingEntity(s) == Some((letter, a))
  {
    var ref := Reference(EntityName(letter, a));
    assert s[1] == ref[1] == letter;
    assert a in AllAccents;
    MatchAtFinds(letter, AllAccents, s);
    var b := MatchAt(letter, AllAccents, s).value;
    ReferencesPrefixFree(EntityName(letter, b), EntityName(letter, a), s);
    EntityNameInjective(letter, b, letter, a);
  }

  /** `strtr` on one character without `$opposite`: a table character becomes its entity. */
  function EncodeChar(c: char): (r: string)
    ensures EntityOf(c).None? ==> r == [c]
    ensures EntityOf(c).Some? ==> r == Reference(EntityName(EntityOf(c).value.0, EntityOf(c).value.1))
  {
    match EntityOf(c)
    case Some((letter, a)) => Reference(EntityName(letter, a))
    case None => [c]
  }

  /**
   * `accents2entities` without `$opposite`: every accented character of the
   * table becomes its entity reference, and every other character is kept.
   */
  function AccentsToEntities(s: string): (r: string)
    ensures |r| >= |s|
  {
    if |s| == 0 then [] else EncodeChar(s[0]) + AccentsToEntities(s[1..])
  }

  /**
   * `accents2entities` with `$opposite`: scanning from the left, every
   * reference of a table entity becomes its accented character, and every
   * other character is kept.
   */
  function EntitiesToAccents(s: string): (r: string)
    ensures |r| <= |s|
    ensures '&' !in s ==> r == s
    decreases |s|
  {
    if |s| == 0 then []
    else match LeadingEntity(s)
      case Some((letter, a)) =>
        [AccentedChar(letter, a).value] + EntitiesToAccents(s[|Reference(EntityName(letter, a))|..])
      case None => [s[0]] + EntitiesToAccents(s[1..])
  }

  /** `String::accents2entities`. */
  function Accents2Entities(s: string, opposite: bool): (r: string)
    ensures opposite ==> r == EntitiesToAccents(s)
    ensures !opposite ==> r == AccentsToEntities(s)
  {
    if opposite then EntitiesToAccents(s) else AccentsToEntities(s)
  }

  /**
   * `accents2entities($s, true)` undoes `accents2entities($s)` on every text in
   * which no table entity occurs, and `accents2entities($s)` undoes
   * `accents2entities($s, true)` on every text without table characters.
   */
  lemma Accents2EntitiesRoundTrip(s: string)
    ensures HoldsNoTableEntity(s) ==> Accents2Entities(Accents2Entities(s, false), true) == s
    ensures (forall c :: c in s ==> EntityOf(c).None?) ==> Accents2Entities(Accents2Entities(s, true), false) == s
  {
    if HoldsNoTableEntity(s) {
      AccentsRoundTrip(s);
    }
    if forall c :: c in s ==> EntityOf(c).None? {
      EntitiesRoundTrip(s);
    }
  }

  lemma {:induction false} AccentsToEntitiesConcat(a: string, b: string)
    ensures AccentsToEntities(a + b) == AccentsToEntities(a) + AccentsToEntities(b)
  {
    if |a| == 0 {
      assert a + b == b;
    } else {
      assert (a + b)[0] == a[0] && (a + b)[1..] == a[1..] + b;
      AccentsToEntitiesConcat(a[1..], b);
    }
  }

  /**
   * No accented character of the table survives the forward direction, and
   * a text without them is returned as it was.
   */
  lemma {:induction false} AccentsToEntitiesRemovesAccents(s: string)
    ensures forall c :: c in AccentsToEntities(s) ==> EntityOf(c).None?
    ensures (forall c :: c in s ==> EntityOf(c).None?) ==> AccentsToEntities(s) == s
  {
    if |s| > 0 {
      AccentsToEntitiesRemovesAccents(s[1..]);
      var e := EncodeChar(s[0]);
      assert forall c :: c in e ==> EntityOf(c).None? by {
        if EntityOf(s[0]).Some? {
          var name := EntityName(EntityOf(s[0]).value.0, EntityOf(s[0]).value.1);
          forall c | c in e ensures c as int < 128 {
            var k :| 0 <= k < |e| && e[k] == c;
            if 0 < k < |e| - 1 { assert e[k] == name[k - 1]; }
          }
        }
      }
      if forall c :: c in s ==> EntityOf(c).None? {
        assert s[0] in s;
        assert forall c :: c in s[1..] ==> c in s;
        assert [s[0]] + s[1..] == s;
      }
    }
  }

  /** The entity of a table character decodes back to it, whatever follows. */
  lemma DecodeEncoded(c: char, rest: string)
    requires EntityOf(c).Some?
    ensures EntitiesToAccents(EncodeChar(c) + rest) == [c] + EntitiesToAccents(rest)
  {
    var (letter, a) := EntityOf(c).value;
    var ref := Reference(EntityName(letter, a));
    TableFlips(c, letter, a);
    LeadingEntityFinds(ref + rest, letter, a);
    assert (ref + rest)[|ref|..] == rest;
  }

  /** A character other than `&` starts no entity and decodes as itself. */
  lemma DecodeOther(c: char, rest: string)
    requires c != '&'
    ensures EntitiesToAccents([c] + rest) == [c] + EntitiesToAccents(rest)
  {
    assert ([c] + rest)[0] == c && ([c] + rest)[1..] == rest;
  }

  /**
   * No entity of the table starts anywhere in `s`; other references, and
   * `&` on its own, may occur.
   */
  ghost predicate HoldsNoTableEntity(s: string)
  {
    forall i, letter, a :: 0 <= i <= |s| && AccentedChar(letter, a).Some? ==> !(Reference(EntityName(letter, a)) <= s[i..])
  }

  lemma HoldsNoTableEntityTail(s: string)
    requires |s| > 0 && HoldsNoTableEntity(s)
    ensures HoldsNoTableEntity(s[1..])
  {
    forall i, letter, a | 0 <= i <= |s| - 1 && AccentedChar(letter, a).Some?
      ensures !(Reference(EntityName(letter, a)) <= s[1..][i..])
    {
      assert s[1..][i..] == s[i + 1..];
    }
  }

  /** A text without `&` holds no entity of the table. */
  lemma NoAmpersandNoTableEntity(s: string)
    requires '&' !in s
    ensures HoldsNoTableEntity(s)
  {
    forall i, letter, a | 0 <= i <= |s| && AccentedChar(letter, a).Some?
      ensures !(Reference(EntityName(letter, a)) <= s[i..])
    {
      if i < |s| {
        assert s[i..][0] == s[i] && s[i] in s;
      }
    }
  }

  /** A stretch without `&` that starts an encoded text already started the text before encoding. */
  lemma {:induction false} EncodedPrefix(u: string, w: string)
    requires '&' !in w && w <= AccentsToEntities(u)
    ensures w <= u
  {
    if |w| > 0 {
      var e, rest := EncodeChar(u[0]), AccentsToEntities(u[1..]);
      assert AccentsToEntities(u) == e + rest;
      EncodedHead(u[0]);
      assert w[0] in w;
      ConsPrefix(u[0], rest, w);
      assert '&' !in w[1..] by { assert forall c :: c in w[1..] ==> c in w; }
      EncodedPrefix(u[1..], w[1..]);
      PrefixCons(u[0], w[1..], u[1..]);
      assert [u[0]] + u[1..] == u;
    }
  }

  /** An encoded character either is the character itself or starts with `&`. */
  lemma EncodedHead(c: char)
    ensures |EncodeChar(c)| > 0 && (EncodeChar(c)[0] != '&' ==> EncodeChar(c) == [c])
  {
  }

  /** A non-empty prefix of `[x] + r` starts with `x`, and the rest is a prefix of `r`. */
  lemma ConsPrefix(x: char, r: string, w: string)
    requires 0 < |w| && w <= [x] + r
    ensures w[0] == x && w[1..] <= r && w == [x] + w[1..]
  {
    assert w[0] == ([x] + r)[0];
    assert forall j :: 1 <= j < |w| ==> w[j] == ([x] + r)[j] == r[j - 1];
  }

  /** Prefixes survive putting the same character in front. */
  lemma PrefixCons(x: char, w: string, u: string)
    requires w <= u
    ensures [x] + w <= [x] + u
  {
    assert forall j :: 1 <= j < |w| + 1 ==> ([x] + w)[j] == w[j - 1];
  }

  /**
   * A table entity that starts an `&` followed by an encoded text already
   * started the text before encoding: encoding only inserts whole entities,
   * which begin with `&`, so the name after the `&` was there already.
   */
  lemma EntityAfterAmpersand(s: string, letter: char, a: Accent)
    requires |s| > 0 && s[0] == '&' && IsLetter(letter)
    requires Reference(EntityName(letter, a)) <= [s[0]] + AccentsToEntities(s[1..])
    ensures Reference(EntityName(letter, a)) <= s
  {
    var u := AccentsToEntities(s[1..]);
    var t := [s[0]] + u;
    var name := EntityName(letter, a);
    var ref := Reference(name);
    EntityNameClean(letter, a);
    var w := name + ";";
    assert ref == [s[0]] + w;
    assert w <= u by {
      assert forall j :: 0 <= j < |w| ==> w[j] == ref[j + 1] == t[j + 1] == u[j];
    }
    EncodedPrefix(s[1..], w);
    assert forall j :: 0 < j < |ref| ==> ref[j] == w[j - 1] == s[1..][j - 1] == s[j];
  }

  /** An `&` that starts no table entity before encoding starts none after it, and decodes as itself. */
  lemma DecodeAmpersand(s: string)
    requires |s| > 0 && s[0] == '&' && HoldsNoTableEntity(s)
    ensures EntitiesToAccents([s[0]] + AccentsToEntities(s[1..])) == [s[0]] + EntitiesToAccents(AccentsToEntities(s[1..]))
  {
    var u := AccentsToEntities(s[1..]);
    var t := [s[0]] + u;
    assert s[0..] == s;
    assert LeadingEntity(t).None? by {
      if LeadingEntity(t).Some? {
        EntityAfterAmpersand(s, LeadingEntity(t).value.0, LeadingEntity(t).value.1);
      }
    }
    DecodeUnmatched(t);
    assert t[1..] == u;
  }

  /**
   * Round trip from accents: translating a text in which no entity of the
   * table occurs to entities and back gives the text again.
   */
  lemma {:induction false} AccentsRoundTrip(s: string)
    requires HoldsNoTableEntity(s)
    ensures EntitiesToAccents(AccentsToEntities(s)) == s
  {
    if |s| > 0 {
      HoldsNoTableEntityTail(s);
      AccentsRoundTrip(s[1..]);
      var rest := AccentsToEntities(s[1..]);
      assert AccentsToEntities(s) == EncodeChar(s[0]) + rest;
      if EntityOf(s[0]).Some? {
        DecodeEncoded(s[0], rest);
      } else if s[0] != '&' {
        DecodeOther(s[0], rest);
      } else {
        DecodeAmpersand(s);
      }
      assert [s[0]] + s[1..] == s;
    }
  }

  /** The accented character a table entity names encodes to that entity. */
  lemma EncodeAccented(letter: char, a: Accent)
    requires AccentedChar(letter, a).Some?
    ensures AccentsToEntities([AccentedChar(letter, a).value]) == Reference(EntityName(letter, a))
  {
    var c := AccentedChar(letter, a).value;
    TableFlips(c, letter, a);
    assert AccentsToEntities([c]) == EncodeChar(c) + AccentsToEntities([]);
  }

  /** A character outside the table encodes as itself. */
  lemma EncodeOther(c: char)
    requires EntityOf(c).None?
    ensures AccentsToEntities([c]) == [c]
  {
    assert AccentsToEntities([c]) == EncodeChar(c) + AccentsToEntities([]);
  }

  /** Decoding a text that starts with a table entity yields its character, then decodes the rest. */
  lemma DecodeLeading(s: string, letter: char, a: Accent)
    requires LeadingEntity(s) == Some((letter, a))
    ensures |Reference(EntityName(letter, a))| <= |s|
    ensures EntitiesToAccents(s)
      == [AccentedChar(letter, a).value] + EntitiesToAccents(s[|Reference(EntityName(letter, a))|..])
  {
  }

  /** The round trip from entities extends from the rest of a text to a table entity before it. */
  lemma EntitiesRoundTripEntity(s: string, letter: char, a: Accent)
    requires LeadingEntity(s) == Some((letter, a))
    requires AccentsToEntities(EntitiesToAccents(s[|Reference(EntityName(letter, a))|..]))
      == s[|Reference(EntityName(letter, a))|..]
    ensures AccentsToEntities(EntitiesToAccents(s)) == s
  {
    var ref := Reference(EntityName(letter, a));
    DecodeLeading(s, letter, a);
    var rest := s[|ref|..];
    var c := AccentedChar(letter, a).value;
    AccentsToEntitiesConcat([c], EntitiesToAccents(rest));
    EncodeAccented(letter, a);
    assert s == ref + rest;
  }

  /** Decoding a text that starts with no table entity keeps its first character. */
  lemma DecodeUnmatched(s: string)
    requires |s| > 0 && LeadingEntity(s).None?
    ensures EntitiesToAccents(s) == [s[0]] + EntitiesToAccents(s[1..])
  {
  }

  /** Encoding a character outside the table before a text puts the character before its encoding. */
  lemma EncodeOtherBefore(c: char, rest: string)
    requires EntityOf(c).None?
    ensures AccentsToEntities([c] + rest) == [c] + AccentsToEntities(rest)
  {
    AccentsToEntitiesConcat([c], rest);
    EncodeOther(c);
  }

  /**
   * Round trip from entities: translating a text without accented table
   * characters to accents and back gives the text again.
   */
  lemma {:induction false} EntitiesRoundTrip(s: string)
    requires forall c :: c in s ==> EntityOf(c).None?
    ensures AccentsToEntities(EntitiesToAccents(s)) == s
    decreases |s|
  {
    if |s| > 0 {
      match LeadingEntity(s)
      case Some((letter, a)) =>
        var rest := s[|Reference(EntityName(letter, a))|..];
        assert forall x :: x in rest ==> x in s;
        EntitiesRoundTrip(rest);
        EntitiesRoundTripEntity(s, letter, a);
      case None =>
        assert s[0] in s;
        assert forall x :: x in s[1..] ==> x in s;
        DecodeUnmatched(s);
        EntitiesRoundTrip(s[1..]);
        EncodeOtherBefore(s[0], EntitiesToAccents(s[1..]));
        assert [s[0]] + s[1..] == s;
    }
  }

  /** "ç" becomes "&ccedil;", and the opposite direction turns it back. */
  lemma CedillaExample(s: string, t: string)
    requires s == "ç" && t == "&ccedil;"
    ensures Accents2Entities(s, false) == t
    ensures Accents2Entities(t, true) == s
  {
    CedillaName();
    assert EntityOf(s[0]) == Some(('c', Cedil));
    assert AccentsToEntities(s) == EncodeChar(s[0]) + AccentsToEntities(s[1..]);
    NoAmpersandNoTableEntity(s);
    AccentsRoundTrip(s);
  }

  /** The reference the table gives "ç". */
  lemma CedillaName()
    ensures Reference(EntityName('c', Cedil)) == "&ccedil;"
  {
  }
}
