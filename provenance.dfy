/**
 * A2Origin: the four sets of change messages gathered while a component is
 * repackaged, and the ARGEO-ORIGIN/changes file they are appended to. The
 * Java sets are TreeSets, so each is written in String.compareTo order.
 */
module Provenance {
  import opened JavaText
  import opened FileTree

  const ArgeoOrigin: string := "ARGEO-ORIGIN"
  const ChangesFile: string := "ARGEO-ORIGIN/changes"

  // ---------------------------------------------------------------- string order

  /** String.compareTo(a, b) < 0: the first differing character decides, else the shorter string comes first. */
  predicate LexLess(a: string, b: string) {
    if a == [] then b != []
    else if b == [] then false
    else if a[0] != b[0] then a[0] < b[0]
    else LexLess(a[1..], b[1..])
  }

  lemma {:induction false} LexLessIrreflexive(a: string)
    ensures !LexLess(a, a)
  {
    if a != [] {
      LexLessIrreflexive(a[1..]);
    }
  }

  lemma {:induction false} LexLessTransitive(a: string, b: string, c: string)
    requires LexLess(a, b) && LexLess(b, c)
    ensures LexLess(a, c)
  {
    if a != [] && b != [] && c != [] && a[0] == b[0] && b[0] == c[0] {
      LexLessTransitive(a[1..], b[1..], c[1..]);
    }
  }

  lemma {:induction false} LexLessTotal(a: string, b: string)
    requires a != b
    ensures LexLess(a, b) || LexLess(b, a)
  {
    if a != [] && b != [] && a[0] == b[0] {
      assert a[1..] != b[1..] by {
        assert a == [a[0]] + a[1..] && b == [b[0]] + b[1..];
      }
      LexLessTotal(a[1..], b[1..]);
    }
  }

  /** `xs` lists the elements of `s` in strictly increasing order: a TreeSet iteration. */
  ghost predicate SortedListing(xs: seq<string>, s: set<string>) {
    && (forall i, j :: 0 <= i < j < |xs| ==> LexLess(xs[i], xs[j]))
    && (forall x :: x in xs <==> x in s)
  }

  /** Two strictly increasing listings of the same set are the same sequence. */
  lemma {:induction false} SortedListingUnique(xs: seq<string>, ys: seq<string>, s: set<string>)
    requires SortedListing(xs, s) && SortedListing(ys, s)
    ensures xs == ys
    decreases |xs|
  {
    ListingSize(xs, s);
    ListingSize(ys, s);
    if xs != [] && ys != [] {
      var a := xs[0];
      HeadIsLeast(xs, s);
      HeadIsLeast(ys, s);
      LeastUnique(s, a, ys[0]);
      forall i, j | 0 <= i < j < |xs| - 1 ensures LexLess(xs[1..][i], xs[1..][j]) {
        assert xs[1..][i] == xs[i + 1] && xs[1..][j] == xs[j + 1];
      }
      forall i, j | 0 <= i < j < |ys| - 1 ensures LexLess(ys[1..][i], ys[1..][j]) {
        assert ys[1..][i] == ys[i + 1] && ys[1..][j] == ys[j + 1];
      }
      forall x ensures x in xs[1..] <==> x in s - {a} {
        if x in xs[1..] {
          var i :| 0 <= i < |xs[1..]| && xs[1..][i] == x;
          assert LexLess(xs[0], xs[i + 1]);
          if x == a { LexLessIrreflexive(a); }
        }
        if x in s - {a} {
          var i :| 0 <= i < |xs| && xs[i] == x;
          assert i != 0;
          assert xs[1..][i - 1] == x;
        }
      }
      forall x ensures x in ys[1..] <==> x in s - {a} {
        if x in ys[1..] {
          var i :| 0 <= i < |ys[1..]| && ys[1..][i] == x;
          assert LexLess(ys[0], ys[i + 1]);
          if x == a { LexLessIrreflexive(a); }
        }
        if x in s - {a} {
          var i :| 0 <= i < |ys| && ys[i] == x;
          assert i != 0;
          assert ys[1..][i - 1] == x;
        }
      }
      SortedListingUnique(xs[1..], ys[1..], s - {a});
      assert xs == [a] + xs[1..] && ys == [a] + ys[1..];
    }
  }

  /** The head of a sorted listing is the least element of the set. */
  lemma HeadIsLeast(xs: seq<string>, s: set<string>)
    requires SortedListing(xs, s) && xs != []
    ensures xs[0] in s && forall y :: y in s && y != xs[0] ==> LexLess(xs[0], y)
  {
    forall y | y in s && y != xs[0] ensures LexLess(xs[0], y) {
      var k :| 0 <= k < |xs| && xs[k] == y;
    }
  }

  /** A set has at most one least element. */
  lemma LeastUnique(s: set<string>, a: string, b: string)
    requires a in s && forall y :: y in s && y != a ==> LexLess(a, y)
    requires b in s && forall y :: y in s && y != b ==> LexLess(b, y)
    ensures a == b
  {
    if a != b {
      LexLessTransitive(a, b, a);
      LexLessIrreflexive(a);
      assert false;
    }
  }

  /** Every non-empty finite set of strings has a least element. */
  lemma {:induction false} LeastExists(s: set<string>) returns (m: string)
    requires s != {}
    ensures m in s && forall y :: y in s && y != m ==> LexLess(m, y)
    decreases |s|
  {
    var x :| x in s;
    if s == {x} {
      m := x;
    } else {
      var rest := LeastExists(s - {x});
      if LexLess(x, rest) {
        m := x;
        forall y | y in s && y != m ensures LexLess(m, y) {
          if y != rest {
            LexLessTransitive(x, rest, y);
          }
        }
      } else {
        LexLessTotal(x, rest);
        m := rest;
      }
    }
  }

  /**
   * The messages of one TreeSet in iteration order: the least remaining
   * message is taken until none is left.
   */
  method SortedMessages(s: set<string>) returns (xs: seq<string>)
    ensures SortedListing(xs, s)
  {
    xs := [];
    var rest := s;
    while rest != {}
      invariant rest <= s
      invariant forall x :: x in xs <==> x in s && x !in rest
      invariant forall i, j :: 0 <= i < j < |xs| ==> LexLess(xs[i], xs[j])
      invariant forall i, y :: 0 <= i < |xs| && y in rest ==> LexLess(xs[i], y)
      decreases rest
    {
      ghost var least := LeastExists(rest);
      var m :| m in rest && forall y :: y in rest && y != m ==> LexLess(m, y);
      xs := xs + [m];
      rest := rest - {m};
    }
  }

  // ---------------------------------------------------------------- the changes file

  /** The four change sets of an A2Origin at one moment. */
  datatype ChangeSets = ChangeSets(added: set<string>, modified: set<string>, moved: set<string>, deleted: set<string>)
  {
    predicate IsEmpty() {
      added == {} && modified == {} && moved == {} && deleted == {}
    }

    function Added(m: string): ChangeSets { this.(added := added + {m}) }
    function Modified(m: string): ChangeSets { this.(modified := modified + {m}) }
    function Moved(m: string): ChangeSets { this.(moved := moved + {m}) }
    function Deleted(m: string): ChangeSets { this.(deleted := deleted + {m}) }

    /** Every message of `this` is still recorded in `later`. */
    predicate Within(later: ChangeSets) {
      added <= later.added && modified <= later.modified && moved <= later.moved && deleted <= later.deleted
    }
  }

  const NoChanges: ChangeSets := ChangeSets({}, {}, {}, {})

  /** One line of the changes file. */
  function ChangeLine(verb: string, message: string): string {
    "- " + verb + " " + message + ".\n"
  }

  /** The lines for one set, listed in order. */
  function ChangeLines(verb: string, xs: seq<string>): (r: seq<string>)
    ensures |r| == |xs|
    ensures forall i :: 0 <= i < |xs| ==> r[i] == ChangeLine(verb, xs[i])
  {
    seq(|xs|, i requires 0 <= i < |xs| => ChangeLine(verb, xs[i]))
  }

  function Concat(lines: seq<string>): string {
    if lines == [] then "" else Concat(lines[..|lines| - 1]) + lines[|lines| - 1]
  }

  lemma ConcatAppend(lines: seq<string>, line: string)
    ensures Concat(lines + [line]) == Concat(lines) + line
  {
    assert (lines + [line])[..|lines|] == lines;
  }

  /**
   * What appendChanges adds for the given sorted listings of the four sets:
   * the Added lines, then the Modified, Moved and Deleted ones.
   */
  function ChangesLines(added: seq<string>, modified: seq<string>, moved: seq<string>, deleted: seq<string>): seq<string> {
    ChangeLines("Added", added) + ChangeLines("Modified", modified)
      + ChangeLines("Moved", moved) + ChangeLines("Deleted", deleted)
  }

  /** The changes text of a change set, whatever sorted listings are used to write it. */
  ghost predicate IsChangesText(c: ChangeSets, text: string) {
    exists a, m, v, d ::
      && SortedListing(a, c.added) && SortedListing(m, c.modified)
      && SortedListing(v, c.moved) && SortedListing(d, c.deleted)
      && text == Concat(ChangesLines(a, m, v, d))
  }

  /** The four listings, written one after the other, are a changes text of the four sets. */
  lemma ChangesTextOf(c: ChangeSets, a: seq<string>, m: seq<string>, v: seq<string>, d: seq<string>, text: string)
    requires SortedListing(a, c.added) && SortedListing(m, c.modified)
    requires SortedListing(v, c.moved) && SortedListing(d, c.deleted)
    requires text == Concat(ChangeLines("Added", a) + ChangeLines("Modified", m) + ChangeLines("Moved", v) + ChangeLines("Deleted", d))
    ensures IsChangesText(c, text)
  {
    assert text == Concat(ChangesLines(a, m, v, d));
  }

  /** A distinct listing of a set has as many elements as the set. */
  lemma {:induction false} ListingSize(xs: seq<string>, s: set<string>)
    requires SortedListing(xs, s)
    ensures |xs| == |s|
    decreases |xs|
  {
    if xs != [] {
      var tail := xs[1..];
      forall i, j | 0 <= i < j < |tail| ensures LexLess(tail[i], tail[j]) {
        assert LexLess(xs[i + 1], xs[j + 1]);
      }
      forall x ensures x in tail <==> x in s - {xs[0]} {
        if x in tail {
          var i :| 0 <= i < |tail| && tail[i] == x;
          assert LexLess(xs[0], xs[i + 1]);
          if x == xs[0] { LexLessIrreflexive(x); }
        }
        if x in s - {xs[0]} {
          var i :| 0 <= i < |xs| && xs[i] == x;
          assert tail[i - 1] == x;
        }
      }
      ListingSize(tail, s - {xs[0]});
    } else {
      assert forall x :: x !in s;
      assert s == {};
    }
  }

  /** The changes file gets one line per message, so nothing is appended for an empty origin. */
  lemma ChangesLineCount(c: ChangeSets, a: seq<string>, m: seq<string>, v: seq<string>, d: seq<string>)
    requires SortedListing(a, c.added) && SortedListing(m, c.modified)
    requires SortedListing(v, c.moved) && SortedListing(d, c.deleted)
    ensures |ChangesLines(a, m, v, d)| == |c.added| + |c.modified| + |c.moved| + |c.deleted|
    ensures c.IsEmpty() <==> ChangesLines(a, m, v, d) == []
  {
    ListingSize(a, c.added);
    ListingSize(m, c.modified);
    ListingSize(v, c.moved);
    ListingSize(d, c.deleted);
    if !c.IsEmpty() {
      assert |ChangesLines(a, m, v, d)| > 0;
    }
  }

  /** Every deleted message has its line after every added one. */
  lemma AddedBeforeDeleted(c: ChangeSets, a: seq<string>, m: seq<string>, v: seq<string>, d: seq<string>, x: string, y: string)
    requires SortedListing(a, c.added) && SortedListing(d, c.deleted)
    requires x in c.added && y in c.deleted
    ensures exists i, j ::
      && 0 <= i < j < |ChangesLines(a, m, v, d)|
      && ChangesLines(a, m, v, d)[i] == ChangeLine("Added", x)
      && ChangesLines(a, m, v, d)[j] == ChangeLine("Deleted", y)
  {
    var lines := ChangesLines(a, m, v, d);
    var i :| 0 <= i < |a| && a[i] == x;
    var k :| 0 <= k < |d| && d[k] == y;
    var j := |a| + |m| + |v| + k;
    assert lines[i] == ChangeLine("Added", x);
    assert lines[j] == ChangeLine("Deleted", y);
  }

  /** A2Origin: the change messages gathered for one component. */
  class A2Origin {
    var added: set<string>
    var modified: set<string>
    var moved: set<string>
    var deleted: set<string>

    constructor()
      ensures Changes() == NoChanges
    {
      added, modified, moved, deleted := {}, {}, {}, {};
    }

    function Changes(): ChangeSets
      reads this
    {
      ChangeSets(added, modified, moved, deleted)
    }

    /**
     * appendChanges(base): nothing when the four sets are empty, otherwise the
     * lines of the four sets, in TreeSet order, appended (UTF-8) to
     * base/ARGEO-ORIGIN/changes, which is created if missing.
     */
    method AppendChanges(tree: Tree, base: string)
      modifies tree
      ensures var path := Resolve(base, ChangesFile);
        if Changes().IsEmpty() then tree.files == old(tree.files)
        else exists text ::
          && IsChangesText(Changes(), text)
          && tree.files == old(tree.files)[path := (if path in old(tree.files) then old(tree.files)[path] else []) + Utf8(text)]
    {
      if added == {} && modified == {} && moved == {} && deleted == {} {
        return;
      }
      var a := SortedMessages(added);
      var m := SortedMessages(modified);
      var v := SortedMessages(moved);
      var d := SortedMessages(deleted);
      var text := WriteLines("", [], "Added", a);
      assert [] + ChangeLines("Added", a) == ChangeLines("Added", a);
      text := WriteLines(text, ChangeLines("Added", a), "Modified", m);
      text := WriteLines(text, ChangeLines("Added", a) + ChangeLines("Modified", m), "Moved", v);
      text := WriteLines(text, ChangeLines("Added", a) + ChangeLines("Modified", m) + ChangeLines("Moved", v), "Deleted", d);
      ChangesTextOf(Changes(), a, m, v, d, text);
      var path := Resolve(base, ChangesFile);
      var previous := if path in tree.files then tree.files[path] else [];
      tree.files := tree.files[path := previous + Utf8(text)];
    }
  }

  /** writer.write of one line per message, after the lines already written. */
  method WriteLines(text: string, written: seq<string>, verb: string, xs: seq<string>) returns (r: string)
    requires text == Concat(written)
    ensures r == Concat(written + ChangeLines(verb, xs))
  {
    r := text;
    var i := 0;
    assert written + ChangeLines(verb, xs[..0]) == written;
    while i < |xs|
      invariant 0 <= i <= |xs|
      invariant r == Concat(written + ChangeLines(verb, xs[..i]))
    {
      ConcatAppend(written + ChangeLines(verb, xs[..i]), ChangeLine(verb, xs[i]));
      assert written + ChangeLines(verb, xs[..i + 1]) == written + ChangeLines(verb, xs[..i]) + [ChangeLine(verb, xs[i])];
      r := r + ChangeLine(verb, xs[i]);
      i := i + 1;
    }
    assert xs[..i] == xs;
  }
}
