/**
 * The tag field of every upload form: a comma-separated string, split on `,`, each piece
 * trimmed, empty pieces dropped (`tags.split(',').map(t => t.trim()).filter(t => t)`).
 */
module TagParsing {

  import opened Text
  import opened Ordering

  function TrimEach(xs: seq<string>): (r: seq<string>)
    ensures |r| == |xs| && forall i :: 0 <= i < |xs| ==> r[i] == Trim(xs[i])
  {
    seq(|xs|, i requires 0 <= i < |xs| => Trim(xs[i]))
  }

  predicate NonEmpty(t: string)
  {
    t != []
  }

  /** The names of a tag field, in the order written; blank pieces give none. */
  function ParseTagNames(s: string): (r: seq<string>)
    ensures |r| <= |Split(s, ',')|
    ensures forall i :: 0 <= i < |r| ==> r[i] != [] && r[i] in TrimEach(Split(s, ','))
  {
    Filter(TrimEach(Split(s, ',')), NonEmpty)
  }

  /** A name as the parser hands it on: non-empty, trimmed, without a comma. */
  predicate CleanName(t: string)
  {
    t != [] && Trimmed(t) && ',' !in t
  }

  /** A trimmed piece is a slice of the piece, so it holds no separator either. */
  lemma TrimKeepsOut(s: string, c: char)
    requires c !in s
    ensures c !in Trim(s)
  {
    var r := Trim(s);
    var i, j :| 0 <= i <= j <= |s| && r == s[i..j];
    forall k | 0 <= k < |r| ensures r[k] != c {
      assert r[k] == s[i + k];
    }
  }

  /**
   * Every parsed name is clean, and a name is parsed exactly when it is the trimmed form
   * of some comma-separated piece and is not empty.
   */
  lemma ParseTagNamesSound(s: string)
    ensures forall i :: 0 <= i < |ParseTagNames(s)| ==> CleanName(ParseTagNames(s)[i])
    ensures forall t :: t in ParseTagNames(s) <==>
      t != [] && exists k :: 0 <= k < |Split(s, ',')| && t == Trim(Split(s, ',')[k])
  {
    var pieces := Split(s, ',');
    var trimmed := TrimEach(pieces);
    var r := ParseTagNames(s);
    forall i | 0 <= i < |r| ensures CleanName(r[i]) {
      assert r[i] in trimmed;
      var k :| 0 <= k < |trimmed| && trimmed[k] == r[i];
      TrimKeepsOut(pieces[k], ',');
    }
    forall t ensures t in r <==> t != [] && exists k :: 0 <= k < |pieces| && t == Trim(pieces[k]) {
      if t in r {
        var i :| 0 <= i < |r| && r[i] == t;
        var k :| 0 <= k < |trimmed| && trimmed[k] == t;
        assert t == Trim(pieces[k]);
      }
      if t != [] && exists k :: 0 <= k < |pieces| && t == Trim(pieces[k]) {
        var k :| 0 <= k < |pieces| && t == Trim(pieces[k]);
        assert trimmed[k] == t;
      }
    }
  }

  /** The pieces `join(', ')` produces, as `split(',')` sees them: a space before all but the first. */
  function Spaced(xs: seq<string>): (r: seq<string>)
    ensures |r| == |xs| && forall i :: 0 <= i < |xs| ==> r[i] == [' '] + xs[i]
  {
    seq(|xs|, i requires 0 <= i < |xs| => [' '] + xs[i])
  }

  lemma JoinPrefixed(p: string, a: string, t: seq<string>, sep: string)
    ensures Join([p + a] + t, sep) == p + Join([a] + t, sep)
  {
    if t != [] {
      assert ([p + a] + t)[1..] == t == ([a] + t)[1..];
    }
  }

  lemma {:induction false} JoinCommaSpace(xs: seq<string>)
    requires |xs| >= 1
    ensures Join(xs, ", ") == Join([xs[0]] + Spaced(xs[1..]), ",")
  {
    if |xs| >= 2 {
      var ys := xs[1..];
      JoinCommaSpace(ys);
      assert ys[1..] == xs[2..];
      assert Spaced(ys) == [[' '] + ys[0]] + Spaced(ys[1..]);
      JoinPrefixed([' '], ys[0], Spaced(ys[1..]), ",");
      assert ([xs[0]] + Spaced(ys))[1..] == Spaced(ys);
    }
  }

  /** The spaced pieces trim back to the names. */
  lemma TrimSpacedPieces(names: seq<string>)
    requires |names| >= 1
    requires forall i :: 0 <= i < |names| ==> CleanName(names[i])
    ensures TrimEach([names[0]] + Spaced(names[1..])) == names
  {
    var pieces := [names[0]] + Spaced(names[1..]);
    forall i | 0 <= i < |pieces| ensures Trim(pieces[i]) == names[i] {
      if i == 0 {
        TrimOfTrimmed(names[0]);
      } else {
        assert pieces[i] == [' '] + names[i];
        TrimAfterSpace(names[i]);
      }
    }
  }

  /** `names.join(', ')` splits on `,` into the spaced pieces. */
  lemma SplitJoinedNames(names: seq<string>)
    requires |names| >= 1
    requires forall i :: 0 <= i < |names| ==> CleanName(names[i])
    ensures Split(Join(names, ", "), ',') == [names[0]] + Spaced(names[1..])
  {
    var pieces := [names[0]] + Spaced(names[1..]);
    JoinCommaSpace(names);
    forall i | 0 <= i < |pieces| ensures ',' !in pieces[i] {
      if i > 0 {
        assert pieces[i] == [' '] + names[i];
      }
    }
    SplitJoin(pieces, ',');
  }

  /**
   * The edit form shows a media item's tags as `names.join(', ')`; parsing that string
   * gives back the same names when each is clean.
   */
  lemma ParseJoinedNames(names: seq<string>)
    requires forall i :: 0 <= i < |names| ==> CleanName(names[i])
    ensures ParseTagNames(Join(names, ", ")) == names
  {
    if names == [] {
      ParseEmpty();
    } else {
      var pieces := [names[0]] + Spaced(names[1..]);
      SplitJoinedNames(names);
      assert Split(Join(names, ", "), ',') == pieces;
      TrimSpacedPieces(names);
      assert TrimEach(pieces) == names;
      FilterAll(names, NonEmpty);
    }
  }

  /** An empty field gives no names. */
  lemma ParseEmpty()
    ensures ParseTagNames([]) == []
  {
    assert Split([], ',') == [[]];
    assert TrimEach([[]]) == [[]] by { TrimOfTrimmed([]); }
  }
}
