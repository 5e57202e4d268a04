/**
 `getVsixUrl` and the file name of the download loop: where open-vsx.org serves the package of one extension
 version, and the name the package is saved under. Both are plain string
 templates over the record's fields, with no escaping.
 */
module Registry {
  import opened Listing

  /** The fixed front of every download address. */
  const Api: string := "https://open-vsx.org/api/"

  /** The file name built in the download loop: `publisher.extension-version.vsix`. */
  function FileName(x: Extension): (name: string)
    ensures |name| == |x.publisher| + |x.extension| + |x.version| + 7
  {
    x.publisher + "." + x.extension + "-" + x.version + ".vsix"
  }

  /** The file name starts with the publisher and carries the `.vsix` ending. */
  lemma FileNameParts(x: Extension)
    ensures FileName(x)[..|x.publisher|] == x.publisher
    ensures FileName(x)[|FileName(x)| - 5..] == ".vsix"
  {
    var name := x.publisher + ("." + x.extension + "-" + x.version) + ".vsix";
    assert FileName(x) == name;
  }

  /**
   `getVsixUrl`: `https://open-vsx.org/api/publisher/extension/version/file/`
   followed by the package's file name. The address begins with the registry's
   API root and ends with exactly the name the loop saves the file under.
   */
  function VsixUrl(x: Extension): (url: string)
    ensures url == Api + x.publisher + "/" + x.extension + "/" + x.version + "/file/" + FileName(x)
    ensures |url| > |Api| + |FileName(x)|
    ensures url[..|Api|] == Api
    ensures url[|url| - |FileName(x)|..] == FileName(x)
  {
    var url := "https://open-vsx.org/api/" + x.publisher + "/" + x.extension + "/" + x.version
      + "/file/" + x.publisher + "." + x.extension + "-" + x.version + ".vsix";
    assert url == Api + (x.publisher + "/" + x.extension + "/" + x.version + "/file/") + FileName(x);
    url
  }

  /** The `publisher/extension/version` route in the middle of the address. */
  function Route(x: Extension): string
  {
    x.publisher + "/" + x.extension + "/" + x.version
  }

  /** `FileName` without its `.vsix` ending (UrlParts proves the two agree). */
  function Stem(x: Extension): string
  {
    x.publisher + "." + x.extension + "-" + x.version
  }

  lemma UrlParts(x: Extension)
    ensures VsixUrl(x) == Api + Route(x) + "/file/" + Stem(x) + ".vsix"
    ensures |Route(x)| == |Stem(x)|
    ensures FileName(x) == Stem(x) + ".vsix"
  {
  }

  /** Equal texts with equal outer parts and equally long first middles agree in the middles. */
  lemma Sandwich(front: string, h: string, mid: string, t: string, back: string, h2: string, t2: string)
    requires front + h + mid + t + back == front + h2 + mid + t2 + back
    requires |h| == |h2|
    ensures h == h2 && t == t2
  {
    var u, u2 := front + h + mid + t + back, front + h2 + mid + t2 + back;
    assert h == u[|front|..|front| + |h|];
    assert h2 == u2[|front|..|front| + |h|];
    assert t == u[|front| + |h| + |mid|..|u| - |back|];
    assert t2 == u2[|front| + |h| + |mid|..|u| - |back|];
  }

  /**
   Two texts that agree around two different separators, each placed right
   after the first part, agree part by part.
   */
  lemma SamePrefix(x: string, y: string, z: string, x2: string, y2: string, z2: string, c: char, d: char)
    requires c != d
    requires x + [c] + y == x2 + [c] + y2
    requires x + [d] + z == x2 + [d] + z2
    ensures x == x2 && y == y2 && z == z2
  {
    if |x| < |x2| {
      InsideFirst(x2, c, y2, |x|);
      InsideFirst(x2, d, z2, |x|);
      SeparatorAt(x, c, y);
      SeparatorAt(x, d, z);
      assert false;
    } else if |x2| < |x| {
      InsideFirst(x, c, y, |x2|);
      InsideFirst(x, d, z, |x2|);
      SeparatorAt(x2, c, y2);
      SeparatorAt(x2, d, z2);
      assert false;
    } else {
      var s, s2 := x + [c] + y, x2 + [c] + y2;
      var t, t2 := x + [d] + z, x2 + [d] + z2;
      assert x == s[..|x|] && x2 == s2[..|x|];
      assert y == s[|x| + 1..] && y2 == s2[|x| + 1..];
      assert z == t[|x| + 1..] && z2 == t2[|x| + 1..];
    }
  }

  lemma SeparatorAt(x: string, c: char, y: string)
    ensures (x + [c] + y)[|x|] == c
  {
  }

  lemma InsideFirst(x: string, c: char, y: string, i: nat)
    requires i < |x|
    ensures (x + [c] + y)[i] == x[i]
  {
  }

  /**
   Different records have different download addresses: the address names
   every field twice, once with `/` and once with `.` and `-` as separators,
   and that is enough to recover the fields.
   */
  lemma UrlInjective(a: Extension, b: Extension)
    requires VsixUrl(a) == VsixUrl(b)
    ensures a == b
  {
    UrlParts(a);
    UrlParts(b);
    Sandwich(Api, Route(a), "/file/", Stem(a), ".vsix", Route(b), Stem(b));
    assert Route(a) == a.publisher + "/" + (a.extension + "/" + a.version);
    assert Route(b) == b.publisher + "/" + (b.extension + "/" + b.version);
    assert Stem(a) == a.publisher + "." + (a.extension + "-" + a.version);
    assert Stem(b) == b.publisher + "." + (b.extension + "-" + b.version);
    SamePrefix(a.publisher, a.extension + "/" + a.version, a.extension + "-" + a.version,
               b.publisher, b.extension + "/" + b.version, b.extension + "-" + b.version, '/', '.');
    SamePrefix(a.extension, a.version, a.version, b.extension, b.version, b.version, '/', '-');
  }

  /** Two texts without line terminators joined by `-` hold none either. */
  lemma DashJoinNoLineTerminator(w: string, v: string)
    requires NoLineTerminator(w) && NoLineTerminator(v)
    ensures NoLineTerminator(w + "-" + v)
  {
    var u := w + "-" + v;
    forall i | 0 <= i < |u| ensures !IsLineTerminator(u[i]) {
      if i < |w| {
        assert u[i] == w[i];
      } else if i > |w| {
        assert u[i] == v[i - |w| - 1];
      }
    }
  }

  /**
   The file name does not determine the record: a `-` can belong to the
   extension or to the version, so two records are saved under one name (and
   when the later download receives a 200 it overwrites the earlier file), although their
   addresses differ. Both records are well-formed whenever the four parts meet
   the pattern's group constraints.
   */
  lemma FileNameAmbiguous(p: string, e: string, w: string, v: string)
    ensures var a, b := Extension(p, e + "-" + w, v), Extension(p, e, w + "-" + v);
      && a != b
      && (p != [] && '.' !in p && e != [] && '@' !in e && '@' !in w
          && NoLineTerminator(w) && v != [] && NoLineTerminator(v)
          ==> WellFormed(a) && WellFormed(b))
      && FileName(a) == FileName(b)
      && VsixUrl(a) != VsixUrl(b)
  {
    var a, b := Extension(p, e + "-" + w, v), Extension(p, e, w + "-" + v);
    assert |a.extension| != |b.extension|;
    assert FileName(a) == p + "." + e + "-" + w + "-" + v + ".vsix" == FileName(b);
    if VsixUrl(a) == VsixUrl(b) {
      UrlInjective(a, b);
    }
    if NoLineTerminator(w) && NoLineTerminator(v) {
      DashJoinNoLineTerminator(w, v);
    }
  }
}
