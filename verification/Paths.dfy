/**
 Host paths as the mount sees them.

 A clean absolute path is the sequence of its components. `Render` gives the
 string the daemon stores; the lemmas below show that the daemon's string tests
 on rendered paths are component-wise prefix tests, so the rest of the project
 can work on components.
 */
module Paths {
  import opened Common

  type Path = seq<string>

  /** A component of a clean path: not empty, no separator, neither dot entry. */
  predicate ValidName(name: string) {
    name != "" && '/' !in name && name != "." && name != ".."
  }

  predicate CleanPath(p: Path) {
    forall i :: 0 <= i < |p| ==> ValidName(p[i])
  }

  function Parent(p: Path): Path {
    if p == [] then [] else p[..|p| - 1]
  }

  /** The components, each with the separator before it. */
  function Joined(p: Path): string {
    if p == [] then "" else "/" + p[0] + Joined(p[1..])
  }

  function Render(p: Path): string {
    if p == [] then "/" else Joined(p)
  }

  lemma {:induction false} JoinedAppend(p: Path, q: Path)
    ensures Joined(p + q) == Joined(p) + Joined(q)
  {
    if p == [] {
      assert p + q == q;
    } else {
      assert (p + q)[1..] == p[1..] + q;
      JoinedAppend(p[1..], q);
      assert Joined(p + q) == "/" + p[0] + (Joined(p[1..]) + Joined(q));
    }
  }

  /** Two separator-free names followed by a separator, or by nothing, agree only if they are equal. */
  lemma NameBoundary(a: string, b: string, restA: string, restB: string)
    requires '/' !in a && '/' !in b
    requires restA != "" && restA[0] == '/'
    requires restB == "" || restB[0] == '/'
    requires a + restA <= b + restB
    ensures a == b && restA <= restB
  {
    var s, t := a + restA, b + restB;
    assert s[|a|] == '/' && t[|a|] == '/';
    assert |b| < |t| ==> t[|b|] == '/';
    assert forall k :: 0 <= k < |a| ==> s[k] == a[k];
    if |a| < |b| {
      assert false;
    }
    if |b| < |a| {
      assert false;
    }
    assert s[..|a|] == a && t[..|a|] == b;
    assert s[|a|..] == restA && t[|a|..] == restB;
  }

  lemma {:induction false} JoinedPrefix(src: Path, p: Path)
    requires CleanPath(src) && CleanPath(p)
    ensures Joined(src) + "/" <= Joined(p) <==> src < p
  {
    if src < p {
      assert p == src + p[|src|..];
      JoinedAppend(src, p[|src|..]);
      assert Joined(p[|src|..])[0] == '/';
    }
    if Joined(src) + "/" <= Joined(p) && src != [] {
      assert p != [];
      var restOld, restP := Joined(src[1..]) + "/", Joined(p[1..]);
      assert Joined(src) + "/" == "/" + (src[0] + restOld);
      assert Joined(p) == "/" + (p[0] + restP);
      assert (Joined(src) + "/")[1..] == src[0] + restOld && Joined(p)[1..] == p[0] + restP;
      NameBoundary(src[0], p[0], restOld, restP);
      JoinedPrefix(src[1..], p[1..]);
      assert src == [src[0]] + src[1..] && p == [p[0]] + p[1..];
    }
  }

  lemma {:induction false} JoinedInjective(p: Path, q: Path)
    requires CleanPath(p) && CleanPath(q)
    requires Joined(p) == Joined(q)
    ensures p == q
  {
    JoinedAppend(q, ["x"]);
    JoinedPrefix(p, q + ["x"]);
    assert Joined(p) + "/" <= Joined(q + ["x"]);
    JoinedAppend(p, ["x"]);
    JoinedPrefix(q, p + ["x"]);
    assert Joined(q) + "/" <= Joined(p + ["x"]);
  }

  /**
   The daemon decides whether a stored path lies below a renamed one with a string
   prefix test, and builds the moved path by replacing that prefix. On clean paths the
   test picks exactly the proper component-wise descendants (never a sibling such as
   "/ab" for "/a"), and the string it builds is the rendering of the moved path.
   */
  lemma StringPrefixIsComponentwise(src: Path, dst: Path, p: Path)
    requires CleanPath(src) && CleanPath(dst) && CleanPath(p)
    requires src != [] && dst != []
    ensures Render(p) == Render(src) <==> p == src
    ensures Render(src) + "/" <= Render(p) <==> src < p
    ensures src < p ==> Render(src) <= Render(p)
                        && Render(dst) + Render(p)[|Render(src)|..] == Render(dst + p[|src|..])
  {
    JoinedPrefix(src, p);
    if p == [] {
      assert |Render(src)| >= 2;
    } else if Render(p) == Render(src) {
      JoinedInjective(p, src);
    }
    if src < p {
      assert p == src + p[|src|..];
      JoinedAppend(src, p[|src|..]);
      JoinedAppend(dst, p[|src|..]);
    }
  }

  // ----- isWithinRoot -----

  /** Number of leading components two paths share. */
  function SharedLength(p: Path, q: Path): (k: nat)
    ensures k <= |p| && k <= |q| && p[..k] == q[..k]
    ensures k < |p| && k < |q| ==> p[k] != q[k]
  {
    if p == [] || q == [] || p[0] != q[0] then 0 else 1 + SharedLength(p[1..], q[1..])
  }

  /** Components of the relative path from base to target; the empty sequence stands for ".". */
  function Relative(base: Path, target: Path): Path {
    var k := SharedLength(base, target);
    seq(|base| - k, _ => "..") + target[k..]
  }

  predicate IsWithinRoot(root: Path, candidate: Path) {
    var rel := Relative(root, candidate);
    rel == [] || rel[0] != ".."
  }

  lemma WithinRootIsPrefix(root: Path, candidate: Path)
    requires CleanPath(candidate)
    ensures IsWithinRoot(root, candidate) <==> root <= candidate
  {
  }

  // ----- resolveChildPath -----

  datatype PathError = EmptyName | SeparatorInName | EscapesRoot

  /** The path a request's (parent, name) pair denotes. */
  function ResolveChildPath(root: Path, parent: Path, name: string): (r: Result<Path, PathError>) {
    if name == "" then Err(EmptyName)
    else if '/' in name then Err(SeparatorInName)
    else
      var target :=
        if name == "." then parent
        else if name == ".." then (if parent == root then root else Parent(parent))
        else parent + [name];
      if IsWithinRoot(root, target) then Ok(target) else Err(EscapesRoot)
  }

  /**
   From any parent inside the mount the result is again inside it, whatever the name; the
   only refusals are the two malformed names. A proper name always yields a child.
   */
  lemma ResolveStaysInside(root: Path, parent: Path, name: string)
    requires CleanPath(parent) && root <= parent
    ensures var r := ResolveChildPath(root, parent, name);
            && (r.Err? <==> name == "" || '/' in name)
            && (r.Ok? ==> CleanPath(r.value) && root <= r.value)
            && (r.Ok? ==> r.value == parent || r.value == Parent(parent) || Parent(r.value) == parent)
            && (r.Ok? && r.value != parent && r.value != Parent(parent) ==> r.value == parent + [name] && ValidName(name))
            && (r.Ok? && r.value == Parent(parent) && parent != root ==> name == "..")
  {
  }
}
