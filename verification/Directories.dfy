/** link, unlink and create of kernel/sysfile.c as they run: directories scanned entry by entry, inodes
  changed in place, each method taking the machine of Links by one step. Paths are already resolved. */
module Directories {
  import opened Links
  import opened LinkCounts

  class Directories {
    const inodes: array<Inode>
    ghost var pending: seq<nat>

    ghost function View(): State
      reads this, inodes
    {
      State(inodes[..], pending)
    }

    ghost predicate Valid()
      reads this, inodes
    {
      Inv(View())
    }

    /** Every inode but these two is as it was. */
    twostate predicate OthersKept(i: nat, j: nat)
      reads inodes
    {
      forall k: nat :: k < inodes.Length && k != i && k != j ==> inodes[k] == old(inodes[k])
    }

    predicate IsDir(d: nat)
      reads inodes
    {
      0 < d < inodes.Length && inodes[d].kind == Dir
    }

    constructor (n: nat)
      requires n > ROOT
      ensures Valid() && View() == Boot(n) && fresh(inodes)
    {
      inodes := new Inode[n](i => if i == ROOT then Inode(Dir, 1, [Dirent(1, "."), Dirent(1, "..")]) else Inode(Free,
          0, []));
      pending := seq(n, _ => 0);
      new;
      BootInv(n);
      assert inodes[..] == Boot(n).fs;
    }

    /** The entry with the name; there is at most one. */
    method Dirlookup(d: nat, name: Name) returns (found: bool, off: nat)
      requires Valid() && IsDir(d)
      ensures found <==> !Absent(inodes[d].ents, name)
      ensures found ==> off < |inodes[d].ents| && inodes[d].ents[off].inum != 0 && inodes[d].ents[off].name == name
      ensures found ==> forall k :: 0 <= k < |inodes[d].ents| && k != off && inodes[d].ents[k].inum != 0 ==>
                          inodes[d].ents[k].name != name
    {
      assert Shaped(inodes[..], d);
      off := 0;
      while off < |inodes[d].ents|
        invariant off <= |inodes[d].ents|
        invariant forall k :: 0 <= k < off && inodes[d].ents[k].inum != 0 ==> inodes[d].ents[k].name != name
      {
        if inodes[d].ents[off].inum != 0 && inodes[d].ents[off].name == name {
          return true, off;
        }
        off := off + 1;
      }
      found := false;
    }

    /** The entries with one more name, in the first empty place. */
    method FreeSlot(d: nat) returns (off: nat)
      requires d < inodes.Length
      ensures off == Slot(inodes[d].ents)
    {
      off := 0;
      while off < |inodes[d].ents| && inodes[d].ents[off].inum != 0
        invariant off <= |inodes[d].ents| && forall k :: 0 <= k < off ==> inodes[d].ents[k].inum != 0
      {
        off := off + 1;
      }
    }

    /** The end of dirlink, once the name is known to be absent. */
    method Enter(d: nat, e: Dirent)
      requires d < inodes.Length
      modifies inodes
      ensures inodes[d] == old(inodes[d]).(ents := Added(old(inodes[d].ents), e)) && OthersKept(d, d)
    {
      var off := FreeSlot(d);
      inodes[d] := inodes[d].(ents := if off < |inodes[d].ents| then inodes[d].ents[off := e]
                                      else inodes[d].ents + [e]);
    }

    method Isdirempty(d: nat) returns (empty: bool)
      requires d < inodes.Length
      ensures empty == Empty(inodes[d].ents)
    {
      var off := 2;
      while off < |inodes[d].ents|
        invariant 2 <= off && forall k :: 2 <= k < off && k < |inodes[d].ents| ==> inodes[d].ents[k].inum == 0
      {
        if inodes[d].ents[off].inum != 0 { return false; }
        off := off + 1;
      }
      empty := true;
    }

    /** sys_link up to iunlock(ip). */
    method LinkBegin(i: nat) returns (ok: bool)
      requires Valid() && 0 < i < inodes.Length && inodes[i].kind != Free
      modifies this`pending, inodes
      ensures Valid() && ok == old(inodes[i].kind == File)
      ensures View() == if ok then old(Step(View(), LinkStart(i))) else old(View())
      ensures ok ==> inodes[i] == old(inodes[i]).(nlink := old(inodes[i].nlink) + 1) && OthersKept(i, i)
    {
      if inodes[i].kind == Dir { return false; }
      ghost var st := View();
      StepKeeps(st, LinkStart(i));
      hide Inv;
      inodes[i] := inodes[i].(nlink := inodes[i].nlink + 1);
      pending := pending[i := pending[i] + 1];
      assert inodes[..] == Step(st, LinkStart(i)).fs;
      ok := true;
    }

    /** The rest of sys_link: the entry is made, or the count goes back. `found` says whether the path led to
      a directory of the same device. An entry made in a directory that is no longer linked, and only
      that, breaks the counts. */
    method LinkEnd(i: nat, found: bool, d: nat, name: Name) returns (ok: bool)
      requires Valid() && 0 < i < inodes.Length && pending[i] > 0
      requires found ==> IsDir(d)
      modifies this`pending, inodes
      ensures ok == (found && old(Absent(inodes[d].ents, name)))
      ensures Valid() <==> !ok || old(inodes[d].nlink) > 0
      ensures View() == if ok then old(Step(View(), LinkDone(i, d, name))) else old(Step(View(), LinkUndo(i)))
      ensures ok ==> inodes[d] == old(inodes[d]).(ents := Added(old(inodes[d].ents), Dirent(i, name)))
                     && OthersKept(d, d)
      ensures !ok ==> inodes[i] == old(inodes[i]).(nlink := old(inodes[i].nlink) - 1) && OthersKept(i, i)
    {
      ghost var st := View();
      ok := found;
      if found {
        var there, _ := Dirlookup(d, name);
        ok := !there;
      }
      if ok {
        NeedsLinkedDirectory(st, LinkDone(i, d, name));
        hide Inv;
        Enter(d, Dirent(i, name));
        pending := pending[i := pending[i] - 1];
        assert inodes[..] == Step(st, LinkDone(i, d, name)).fs;
      } else {
        StepKeeps(st, LinkUndo(i));
        hide Inv;
        inodes[i] := inodes[i].(nlink := inodes[i].nlink - 1);
        pending := pending[i := pending[i] - 1];
        assert inodes[..] == Step(st, LinkUndo(i)).fs;
      }
    }

    /** sys_unlink. The panic for nlink < 1 is never reached. */
    method UnlinkName(d: nat, name: Name) returns (ok: bool, off: nat)
      requires Valid() && IsDir(d)
      modifies inodes
      ensures Valid()
      ensures ok ==> name != "." && name != ".." && old(Enabled(View(), Unlink(d, off)))
                     && old(inodes[d].ents[off].name) == name && View() == old(Step(View(), Unlink(d, off)))
      ensures ok ==> var c := old(inodes[d].ents[off].inum);
                     && 0 < c < inodes.Length && c != d
                     && inodes[d].ents == old(inodes[d].ents)[off := Dirent(0, "")]
                     && inodes[d].nlink == old(inodes[d].nlink) - (if old(inodes[c].kind) == Dir then 1 else 0)
                     && inodes[c] == old(inodes[c]).(nlink := old(inodes[c].nlink) - 1)
                     && inodes[d].kind == Dir && OthersKept(d, c)
      ensures !ok ==> View() == old(View())
      ensures !ok ==> name == "." || name == ".." || Absent(inodes[d].ents, name)
                      || (off < |inodes[d].ents| && inodes[d].ents[off].name == name && IsDir(inodes[d].ents[off].inum)
                          && !Empty(inodes[inodes[d].ents[off].inum].ents))
    {
      ghost var st := View();
      assert Shaped(st.fs, d);
      if name == "." || name == ".." { return false, 0; }
      var found;
      found, off := Dirlookup(d, name);
      if !found { return false, 0; }
      var c := inodes[d].ents[off].inum;
      var isdir := inodes[c].kind == Dir;
      if isdir {
        var empty := Isdirempty(c);
        if !empty { return false, off; }
      }
      UnlinkFacts(st, d, off);
      StepKeeps(st, Unlink(d, off));
      assert st.fs[c].nlink >= 1 by { Linked(st, d, off); }
      hide Inv;
      inodes[d] := inodes[d].(ents := inodes[d].ents[off := Dirent(0, [])]);
      if isdir {
        inodes[d] := inodes[d].(nlink := inodes[d].nlink - 1);
      }
      inodes[c] := inodes[c].(nlink := inodes[c].nlink - 1);
      assert inodes[..] == Step(st, Unlink(d, off)).fs;
      ok := true;
    }

    /** create of a file or a directory; `exists'` when the name is taken. Without a free inode it panics. A name
      made in a directory that is no longer linked, and only that, breaks the counts. */
    method CreateName(d: nat, name: Name, dir: bool) returns (exists': bool, ok: bool, c: nat)
      requires Valid() && IsDir(d)
      modifies inodes
      ensures exists' == !old(Absent(inodes[d].ents, name))
      ensures Valid() <==> exists' || !ok || old(inodes[d].nlink) > 0
      ensures exists' ==> View() == old(View()) && c < inodes.Length && ok == (!dir && inodes[c].kind == File)
                          && exists k :: 0 <= k < |inodes[d].ents| && inodes[d].ents[k] == Dirent(c, name)
      ensures !exists' && ok ==> old(Checked(View(), Create(d, name, dir, c)))
                                 && View() == old(Step(View(), Create(d, name, dir, c)))
      ensures !exists' && ok ==>
                && 0 < c < inodes.Length && c != d && old(inodes[c].kind) == Free
                && inodes[c] == (if dir then Inode(Dir, 1, [Dirent(c, "."), Dirent(d, "..")]) else Inode(File, 1, []))
                && inodes[d] == old(inodes[d]).(nlink := old(inodes[d].nlink) + (if dir then 1 else 0),
                                                ents := Added(old(inodes[d].ents), Dirent(c, name)))
                && OthersKept(d, c)
      ensures !exists' && !ok ==> View() == old(View()) && forall i :: 0 < i < inodes.Length ==> inodes[i].kind != Free
    {
      ghost var st := View();
      var off;
      exists', off := Dirlookup(d, name);
      if exists' {
        assert Shaped(st.fs, d);
        c := inodes[d].ents[off].inum;
        assert inodes[d].ents[off] == Dirent(c, name);
        ok := !dir && inodes[c].kind == File;
        return;
      }
      c := 1;
      while c < inodes.Length && inodes[c].kind != Free
        invariant 1 <= c && (c <= inodes.Length || inodes.Length < 1)
        invariant forall i :: 0 < i < c && i < inodes.Length ==> inodes[i].kind != Free
      {
        c := c + 1;
      }
      ok := c < inodes.Length;
      if !ok { return; }
      NeedsLinkedDirectory(st, Create(d, name, dir, c));
      hide Inv;
      inodes[c] := Inode(if dir then Dir else File, 1, []);
      if dir {
        inodes[d] := inodes[d].(nlink := inodes[d].nlink + 1);
        inodes[c] := inodes[c].(ents := [Dirent(c, ".")]);
        inodes[c] := inodes[c].(ents := inodes[c].ents + [Dirent(d, "..")]);
      }
      assert c != d && inodes[c] == Fresh(d, dir, c);
      assert inodes[d].ents == st.fs[d].ents && inodes[d].nlink == st.fs[d].nlink + One(dir);
      Enter(d, Dirent(c, name));
      assert inodes[..] == Step(st, Create(d, name, dir, c)).fs;
    }

    /** The last iput of an inode with no name left. */
    method Release(i: nat)
      requires Valid() && 0 < i < inodes.Length && inodes[i].kind != Free && inodes[i].nlink == 0 && pending[i] == 0
      modifies inodes
      ensures Valid() && View() == old(Step(View(), Reap(i))) && Refs(inodes[..], i) == 0
      ensures inodes[i] == Inode(Free, 0, []) && OthersKept(i, i)
    {
      ghost var st := View();
      StepKeeps(st, Reap(i));
      assert Counted(Step(st, Reap(i)), i);
      hide Inv;
      inodes[i] := Inode(Free, 0, []);
      assert inodes[..] == Step(st, Reap(i)).fs;
    }
  }

  lemma Linked(st: State, d: nat, k: nat)
    requires Inv(st) && Enabled(st, Unlink(d, k))
    ensures st.fs[st.fs[d].ents[k].inum].nlink >= 1
  {
    var c := st.fs[d].ents[k].inum;
    UnlinkFacts(st, d, k);
    assert Counted(st, c);
    Names(st.fs[d], k, c);
    RefsAtLeast(st.fs, d, c);
  }
}
