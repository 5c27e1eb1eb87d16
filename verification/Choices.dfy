/** Choices: merging leaves at most one branch of every choice, and the edit's branch
    wins. */
module Choices {
  import opened Xml
  import opened Schema
  import opened Equivalents
  import opened Instances
  import opened Merge

  /** No two siblings lie in different branches of one choice, here and below. */
  predicate OneBranch(m: Model, at: seq<string>, kids: seq<Node>)
    decreases kids
  {
    (forall i, j :: 0 <= i < |kids| && 0 <= j < |kids| && kids[i].Element? && kids[j].Element? ==>
      !Rivals(m, at, kids[i].name, kids[j].name)) &&
    (forall i :: 0 <= i < |kids| && kids[i].Element? ==> OneBranch(m, at + [kids[i].name], kids[i].kids))
  }

  lemma {:induction false} NothingToClean(m: Model, at: seq<string>, kids: seq<Node>, keep: string)
    requires forall i :: 0 <= i < |kids| && kids[i].Element? ==> !Rivals(m, at, keep, kids[i].name)
    ensures ChoiceClean(m, at, kids, keep) == kids
  {
    if kids != [] {
      NothingToClean(m, at, kids[1..], keep);
    }
  }

  /** Nobody among kids lies in another branch than a child called name. */
  predicate NoRival(m: Model, at: seq<string>, kids: seq<Node>, name: string) {
    forall i :: 0 <= i < |kids| && kids[i].Element? ==> !Rivals(m, at, name, kids[i].name)
  }

  lemma {:induction false} CleanHasNoRival(m: Model, at: seq<string>, kids: seq<Node>, keep: string)
    ensures NoRival(m, at, ChoiceClean(m, at, kids, keep), keep)
  {
    if kids != [] {
      CleanHasNoRival(m, at, kids[1..], keep);
    }
  }

  lemma SubsetOneBranch(m: Model, at: seq<string>, kids: seq<Node>, r: seq<Node>)
    requires OneBranch(m, at, kids) && forall n :: n in r ==> n in kids
    ensures OneBranch(m, at, r)
  {
    forall i | 0 <= i < |r|
      ensures exists k :: 0 <= k < |kids| && kids[k] == r[i]
    {
      assert r[i] in kids;
    }
  }

  lemma AppendOneBranch(m: Model, at: seq<string>, kids: seq<Node>, c: Node)
    requires OneBranch(m, at, kids)
    requires c.Element? ==> NoRival(m, at, kids, c.name) && OneBranch(m, at + [c.name], c.kids)
    ensures OneBranch(m, at, kids + [c])
  {
    var r := kids + [c];
    forall i, j | 0 <= i < |r| && 0 <= j < |r| && r[i].Element? && r[j].Element?
      ensures !Rivals(m, at, r[i].name, r[j].name)
    {
      assert r[i] == if i < |kids| then kids[i] else c;
      assert r[j] == if j < |kids| then kids[j] else c;
    }
  }

  lemma UpdateOneBranch(m: Model, at: seq<string>, kids: seq<Node>, i: nat, n: Node)
    requires OneBranch(m, at, kids) && i < |kids| && kids[i].Element? && n.Element? && n.name == kids[i].name
    requires OneBranch(m, at + [n.name], n.kids)
    ensures OneBranch(m, at, kids[i := n])
  {
  }

  /** Merging a child leaves one branch of each choice, and no rival of the child. */
  lemma {:induction false} MergeKidOneBranch(m: Model, at: seq<string>, kids: seq<Node>, c: Node)
    requires KeysOutsideChoices(m) && OneBranch(m, at, kids)
    requires c.Element? ==> OneBranch(m, at + [c.name], c.kids)
    ensures OneBranch(m, at, MergeKid(m, at, kids, c))
    ensures c.Element? ==> NoRival(m, at, MergeKid(m, at, kids, c), c.name)
    decreases c, 1
  {
    if c.Text? {
      AppendOneBranch(m, at, kids, c);
      assert OneBranch(m, at, ReplaceTexts(kids, c));
    } else if IsKeyAt(m, at, c.name) {
      forall i | 0 <= i < |kids| && kids[i].Element?
        ensures !Rivals(m, at, c.name, kids[i].name)
      {
        assert !Rivals(m, at, kids[i].name, c.name);
      }
    } else {
      var i := FirstMatch(m, c, kids, IsLeafList(m, at + [c.name]));
      if i.Some? {
        var n := MergeNode(m, at, kids[i.value], c);
        MergeNodeOneBranch(m, at, kids[i.value], c);
        UpdateOneBranch(m, at, kids, i.value, n);
        CleanHasNoRival(m, at, kids[i.value := n], c.name);
        SubsetOneBranch(m, at, kids[i.value := n], ChoiceClean(m, at, kids[i.value := n], c.name));
      } else {
        var r := ChoiceClean(m, at, kids, c.name);
        CleanHasNoRival(m, at, kids, c.name);
        SubsetOneBranch(m, at, kids, r);
        AppendOneBranch(m, at, r, c);
        AppendNoRival(m, at, r, c);
      }
    }
  }

  lemma AppendNoRival(m: Model, at: seq<string>, kids: seq<Node>, c: Node)
    requires c.Element? && NoRival(m, at, kids, c.name)
    ensures NoRival(m, at, kids + [c], c.name)
  {
  }

  lemma {:induction false} MergeNodeOneBranch(m: Model, at: seq<string>, o: Node, e: Node)
    requires KeysOutsideChoices(m) && o.Element? && e.Element? && o.name == e.name
    requires OneBranch(m, at + [o.name], o.kids) && OneBranch(m, at + [o.name], e.kids)
    ensures OneBranch(m, at + [o.name], MergeNode(m, at, o, e).kids)
    decreases e, 0
  {
    MergeOneBranch(m, at + [o.name], o.kids, e.kids);
  }

  /** If configuration and edit populate at most one branch of every choice under every
      parent, so does the result of merging, and no child of the result lies in another
      branch than a child of the edit: the edit's branch wins. */
  lemma {:induction false} MergeOneBranch(m: Model, at: seq<string>, kids: seq<Node>, edits: seq<Node>)
    requires KeysOutsideChoices(m) && OneBranch(m, at, kids) && OneBranch(m, at, edits)
    ensures OneBranch(m, at, MergeKids(m, at, kids, edits))
    ensures forall j :: 0 <= j < |edits| && edits[j].Element? ==>
      NoRival(m, at, MergeKids(m, at, kids, edits), edits[j].name)
    decreases edits, 2
  {
    if edits != [] {
      var c, rest := edits[0], edits[1..];
      var r1 := MergeKid(m, at, kids, c);
      MergeKidOneBranch(m, at, kids, c);
      SubsetOneBranch(m, at, edits, rest);
      MergeOneBranch(m, at, r1, rest);
      if c.Element? {
        forall i | 0 <= i < |rest| && rest[i].Element?
          ensures !Rivals(m, at, c.name, rest[i].name)
        {
          assert rest[i] == edits[i + 1];
        }
        NoRivalStays(m, at, r1, rest, c.name);
      }
      forall j | 0 <= j < |edits| && edits[j].Element?
        ensures NoRival(m, at, MergeKids(m, at, kids, edits), edits[j].name)
      {
        if j > 0 {
          assert edits[j] == rest[j - 1];
        }
      }
    }
  }

  /** Merging brings in no names but the edit's. */
  lemma {:induction false} NoRivalStays(m: Model, at: seq<string>, kids: seq<Node>, edits: seq<Node>, name: string)
    requires NoRival(m, at, kids, name) && NoRival(m, at, edits, name)
    ensures NoRival(m, at, MergeKids(m, at, kids, edits), name)
    decreases edits
  {
    if edits != [] {
      NoRivalStep(m, at, kids, edits[0], name);
      NoRivalStays(m, at, MergeKid(m, at, kids, edits[0]), edits[1..], name);
    }
  }

  lemma NoRivalStep(m: Model, at: seq<string>, kids: seq<Node>, c: Node, name: string)
    requires NoRival(m, at, kids, name) && (c.Element? ==> !Rivals(m, at, name, c.name))
    ensures NoRival(m, at, MergeKid(m, at, kids, c), name)
  {
    if c.Element? && !IsKeyAt(m, at, c.name) {
      var i := FirstMatch(m, c, kids, IsLeafList(m, at + [c.name]));
      if i.Some? {
        SubsetNoRival(m, at, kids[i.value := MergeNode(m, at, kids[i.value], c)],
          MergeKid(m, at, kids, c), name);
      } else {
        SubsetNoRival(m, at, kids, ChoiceClean(m, at, kids, c.name), name);
      }
    }
  }

  lemma SubsetNoRival(m: Model, at: seq<string>, kids: seq<Node>, r: seq<Node>, name: string)
    requires NoRival(m, at, kids, name) && forall n :: n in r ==> n in kids
    ensures NoRival(m, at, r, name)
  {
    forall i | 0 <= i < |r| && r[i].Element?
      ensures !Rivals(m, at, name, r[i].name)
    {
      assert r[i] in kids;
    }
  }
}
