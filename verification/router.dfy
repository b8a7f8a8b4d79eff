/** The request dispatcher of createServer: a fixed chain of method and
    path tests, the first that holds choosing the route. */
module Router {
  import opened Wrappers
  import opened JsText

  /** Where a request goes. Ids are `parseInt` of the fourth `/`-separated
      segment of the path; None stands for NaN. */
  datatype Route =
    | Preflight
    | Page
    | ListAll
    | GetById(id: Option<int>)
    | ByGrade(grade: string)
    | Create
    | Update(id: Option<int>)
    | Delete(id: Option<int>)
    | NotFound

  const StudentsPath := "/api/students"
  const IdPrefix := "/api/students/"
  const GradePrefix := "/api/students/grade/"

  /** `/\/api\/students\/\d+/` matches at offset k. */
  predicate IdMatchAt(p: string, k: nat) {
    k + |IdPrefix| < |p| && p[k..k + |IdPrefix|] == IdPrefix && IsDecimalDigit(p[k + |IdPrefix|])
  }

  /** The id pattern matches anywhere in the path: it is not anchored. */
  predicate HasIdPath(p: string) {
    exists k: nat :: k < |p| && IdMatchAt(p, k)
  }

  /** `/\/api\/students\/grade\/[A-F]/` matches at offset k. */
  predicate GradeMatchAt(p: string, k: nat) {
    k + |GradePrefix| < |p| && p[k..k + |GradePrefix|] == GradePrefix && 'A' <= p[k + |GradePrefix|] <= 'F'
  }

  predicate HasGradePath(p: string) {
    exists k: nat :: k < |p| && GradeMatchAt(p, k)
  }

  /** Splitting around `/api/students/` yields the segments `api` and `students`. */
  lemma IdPrefixSegments(a: string, rest: string)
    ensures a + IdPrefix + rest == a + ['/'] + "api" + ['/'] + ("students" + ['/'] + rest)
  {
    assert IdPrefix == ['/'] + "api" + ['/'] + "students" + ['/'];
  }

  lemma SplitAroundIdPrefix(a: string, rest: string)
    ensures Split(a + IdPrefix + rest, '/') == Split(a, '/') + ["api", "students"] + Split(rest, '/')
  {
    IdPrefixSegments(a, rest);
    SplitAroundSegment(a, "api", "students" + ['/'] + rest, '/');
    SplitLeadingSegment("students", rest, '/');
    assert Split(a, '/') + ["api"] + (["students"] + Split(rest, '/'))
        == Split(a, '/') + ["api", "students"] + Split(rest, '/');
  }

  lemma GradePrefixSegments(a: string, rest: string)
    ensures a + GradePrefix + rest == a + IdPrefix + ("grade" + ['/'] + rest)
  {
    assert GradePrefix == IdPrefix + "grade" + ['/'];
  }

  lemma SplitAroundGradePrefix(a: string, rest: string)
    ensures Split(a + GradePrefix + rest, '/') == Split(a, '/') + ["api", "students", "grade"] + Split(rest, '/')
  {
    GradePrefixSegments(a, rest);
    SplitAroundIdPrefix(a, "grade" + ['/'] + rest);
    SplitLeadingSegment("grade", rest, '/');
    assert Split(a, '/') + ["api", "students"] + (["grade"] + Split(rest, '/'))
        == Split(a, '/') + ["api", "students", "grade"] + Split(rest, '/');
  }

  /** A path the id pattern matches has a fourth segment. */
  lemma IdPathHasFourSegments(p: string)
    requires HasIdPath(p)
    ensures |Split(p, '/')| >= 4
  {
    var k: nat :| k < |p| && IdMatchAt(p, k);
    var rest := p[k + |IdPrefix|..];
    assert p == p[..k] + IdPrefix + rest;
    SplitAroundIdPrefix(p[..k], rest);
  }

  /** A path the grade pattern matches has a fifth segment. */
  lemma GradePathHasFiveSegments(p: string)
    requires HasGradePath(p)
    ensures |Split(p, '/')| >= 5
  {
    var k: nat :| k < |p| && GradeMatchAt(p, k);
    var rest := p[k + |GradePrefix|..];
    assert p == p[..k] + GradePrefix + rest;
    SplitAroundGradePrefix(p[..k], rest);
  }

  /** `parseInt(pathname.split('/')[3])` */
  function IdSegment(p: string): Option<int>
    requires HasIdPath(p)
  {
    IdPathHasFourSegments(p);
    ParseInt(Split(p, '/')[3])
  }

  /** `pathname.split('/')[4]`, taken verbatim. */
  function GradeSegment(p: string): string
    requires HasGradePath(p)
  {
    GradePathHasFiveSegments(p);
    Split(p, '/')[4]
  }

  /** The first branch of createServer's chain whose test holds. */
  function Dispatch(verb: string, path: string): Route {
    if verb == "OPTIONS" then Preflight
    else if path == "/" && verb == "GET" then Page
    else if path == StudentsPath && verb == "GET" then ListAll
    else if HasIdPath(path) && verb == "GET" then GetById(IdSegment(path))
    else if HasGradePath(path) && verb == "GET" then ByGrade(GradeSegment(path))
    else if path == StudentsPath && verb == "POST" then Create
    else if HasIdPath(path) && verb == "PUT" then Update(IdSegment(path))
    else if HasIdPath(path) && verb == "DELETE" then Delete(IdSegment(path))
    else NotFound
  }

  /** Which requests reach which route. OPTIONS wins for every path; an id
      path shadows a grade path; everything else falls through to NotFound. */
  lemma DispatchSpec(m: string, p: string)
    ensures Dispatch(m, p) == Preflight <==> m == "OPTIONS"
    ensures Dispatch(m, p) == Page <==> m == "GET" && p == "/"
    ensures Dispatch(m, p) == ListAll <==> m == "GET" && p == StudentsPath
    ensures Dispatch(m, p).GetById? <==> m == "GET" && HasIdPath(p)
    ensures Dispatch(m, p).ByGrade? <==> m == "GET" && HasGradePath(p) && !HasIdPath(p)
    ensures Dispatch(m, p) == Create <==> m == "POST" && p == StudentsPath
    ensures Dispatch(m, p).Update? <==> m == "PUT" && HasIdPath(p)
    ensures Dispatch(m, p).Delete? <==> m == "DELETE" && HasIdPath(p)
    ensures Dispatch(m, p) == NotFound <==>
      && m != "OPTIONS"
      && !(m == "GET" && (p == "/" || p == StudentsPath || HasIdPath(p) || HasGradePath(p)))
      && !(m == "POST" && p == StudentsPath)
      && !((m == "PUT" || m == "DELETE") && HasIdPath(p))
  {
    assert !HasIdPath("/") && !HasIdPath(StudentsPath);
    assert !HasGradePath("/") && !HasGradePath(StudentsPath);
  }

  /** The id routes take the leading-digit value of the fourth segment. */
  lemma DispatchIdIsFourthSegment(m: string, p: string)
    requires Dispatch(m, p).GetById? || Dispatch(m, p).Update? || Dispatch(m, p).Delete?
    ensures |Split(p, '/')| >= 4 && Dispatch(m, p).id == ParseInt(Split(p, '/')[3])
  {
    DispatchSpec(m, p);
    IdPathHasFourSegments(p);
  }

  /** The grade route takes the fifth segment verbatim. */
  lemma DispatchGradeIsFifthSegment(m: string, p: string)
    requires Dispatch(m, p).ByGrade?
    ensures |Split(p, '/')| >= 5 && Dispatch(m, p).grade == Split(p, '/')[4]
  {
    DispatchSpec(m, p);
    GradePathHasFiveSegments(p);
  }

  /** A match of the id pattern sits on two slashes and a digit. */
  lemma IdMatchShape(p: string, k: nat)
    requires k + |IdPrefix| < |p|
    ensures IdMatchAt(p, k) ==> p[k] == '/' && p[k + 13] == '/' && IsDecimalDigit(p[k + 14])
  {
    if p[k..k + |IdPrefix|] == IdPrefix {
      assert p[k] == p[k..k + |IdPrefix|][0];
      assert p[k + 13] == p[k..k + |IdPrefix|][13];
    }
  }

  /** A path that starts with the id prefix and a digit matches the id pattern. */
  lemma IdPrefixMatches(rest: string)
    requires |rest| > 0 && IsDecimalDigit(rest[0])
    ensures HasIdPath(IdPrefix + rest)
  {
    var p := IdPrefix + rest;
    assert p[..|IdPrefix|] == IdPrefix;
    assert p[|IdPrefix|] == rest[0];
    assert IdMatchAt(p, 0);
  }

  /** The fourth segment of `/api/students/<seg>` is `seg`. */
  lemma FourthSegment(seg: string)
    requires '/' !in seg
    ensures Split(IdPrefix + seg, '/') == ["", "api", "students", seg]
  {
    assert "" + IdPrefix + seg == IdPrefix + seg;
    SplitAroundIdPrefix("", seg);
    SplitWithoutSeparator(seg, '/');
  }

  /** `/api/students/<n>` reaches the id routes with id n. */
  lemma CanonicalIdRoutes(n: nat)
    ensures Dispatch("GET", IdPrefix + DecimalString(n)) == GetById(Some(n))
    ensures Dispatch("PUT", IdPrefix + DecimalString(n)) == Update(Some(n))
    ensures Dispatch("DELETE", IdPrefix + DecimalString(n)) == Delete(Some(n))
  {
    var ds := DecimalString(n);
    var p := IdPrefix + ds;
    IdPrefixMatches(ds);
    assert '/' !in ds by {
      forall i | 0 <= i < |ds| ensures ds[i] != '/' {
        assert IsDecimalDigit(ds[i]);
      }
    }
    FourthSegment(ds);
    ParseIntDecimalString(n);
    assert IdSegment(p) == Some(n);
    assert p != "/" && p != StudentsPath by {
      assert |p| > |StudentsPath|;
    }
  }

  /** In `/api/students/grade/<seg>` slashes stand only at 0, 4, 13 and 19. */
  lemma SlashesOfGradePath(seg: string, i: int)
    requires '/' !in seg && 0 <= i < |GradePrefix + seg|
    ensures (GradePrefix + seg)[i] == '/' ==> i == 0 || i == 4 || i == 13 || i == 19
  {
    var p := GradePrefix + seg;
    if i >= |GradePrefix| {
      assert p[i] == seg[i - |GradePrefix|];
    }
  }

  /** No id route shadows `/api/students/grade/<seg>`. */
  lemma GradePathIsNoIdPath(seg: string)
    requires '/' !in seg
    ensures !HasIdPath(GradePrefix + seg)
  {
    var p := GradePrefix + seg;
    forall k: nat | k < |p| ensures !IdMatchAt(p, k) {
      if k + |IdPrefix| < |p| {
        IdMatchShape(p, k);
        SlashesOfGradePath(seg, k);
        SlashesOfGradePath(seg, k + 13);
        assert p[14] == 'g';
      }
    }
  }

  /** `/api/students/grade/<g...>` reaches the grade route with the whole
      segment, whatever follows its first letter. */
  lemma CanonicalGradeRoute(seg: string)
    requires |seg| > 0 && 'A' <= seg[0] <= 'F' && '/' !in seg
    ensures Dispatch("GET", GradePrefix + seg) == ByGrade(seg)
  {
    var p := GradePrefix + seg;
    assert GradeMatchAt(p, 0) by {
      assert p[..|GradePrefix|] == GradePrefix;
      assert p[|GradePrefix|] == seg[0];
    }
    GradePathIsNoIdPath(seg);
    assert "" + GradePrefix + seg == p;
    SplitAroundGradePrefix("", seg);
    SplitWithoutSeparator(seg, '/');
    assert GradeSegment(p) == seg;
    assert p != "/" && p != StudentsPath by {
      assert |p| > |StudentsPath|;
    }
  }

  /** On an id path the three id routes are told apart by method alone. */
  lemma DispatchOnIdPath(p: string)
    requires HasIdPath(p)
    ensures Dispatch("GET", p) == GetById(IdSegment(p))
    ensures Dispatch("PUT", p) == Update(IdSegment(p))
    ensures Dispatch("DELETE", p) == Delete(IdSegment(p))
  {
    IdPathIsLong(p);
    assert p != "/" && p != StudentsPath;
    assert Dispatch("PUT", p) == Update(IdSegment(p)) by {
      assert "PUT" != "OPTIONS" && "PUT" != "GET" && "PUT" != "POST";
    }
    assert Dispatch("DELETE", p) == Delete(IdSegment(p)) by {
      assert "DELETE" != "OPTIONS" && "DELETE" != "GET" && "DELETE" != "POST" && "DELETE" != "PUT";
    }
  }

  lemma IdPathIsLong(p: string)
    requires HasIdPath(p)
    ensures |p| > |StudentsPath|
  {
    var k: nat :| k < |p| && IdMatchAt(p, k);
  }

  /** Because the pattern is unanchored, a path with a leading directory
      still reaches the id routes, but its fourth segment is `students`,
      so the id is NaN. */
  lemma UnanchoredIdPath(dir: string, n: nat)
    requires '/' !in dir
    ensures Dispatch("GET", "/" + dir + IdPrefix + DecimalString(n)) == GetById(None)
  {
    var ds := DecimalString(n);
    var a := "/" + dir;
    var p := a + IdPrefix + ds;
    assert HasIdPath(p) by {
      assert p[|a|..|a| + |IdPrefix|] == IdPrefix;
      assert p[|a| + |IdPrefix|] == ds[0];
      assert IdMatchAt(p, |a|);
    }
    assert Split(p, '/')[3] == "students" by {
      SplitAroundIdPrefix(a, ds);
      assert a == "" + ['/'] + dir;
      SplitAtSeparator("", dir, '/');
      SplitWithoutSeparator(dir, '/');
    }
    assert IdSegment(p) == None by {
      ParseIntNoDigits("students");
    }
    DispatchOnIdPath(p);
  }

  /** In `/x/api/students/grade/<seg>` slashes stand only at 0, 2, 6, 15 and 21. */
  lemma SlashesOfUnanchoredGradePath(seg: string, i: int)
    requires '/' !in seg && 0 <= i < |"/x" + GradePrefix + seg|
    ensures ("/x" + GradePrefix + seg)[i] == '/' ==> i == 0 || i == 2 || i == 6 || i == 15 || i == 21
  {
    var p := "/x" + GradePrefix + seg;
    if i >= 2 + |GradePrefix| {
      assert p[i] == seg[i - 2 - |GradePrefix|];
    } else if i >= 2 {
      assert p[i] == GradePrefix[i - 2];
    }
  }

  /** The grade pattern is unanchored too: behind a leading directory its
      fifth segment is `grade`, and that is the grade the route looks up. */
  lemma UnanchoredGradePath(seg: string)
    requires |seg| > 0 && 'A' <= seg[0] <= 'F' && '/' !in seg
    ensures Dispatch("GET", "/x" + GradePrefix + seg) == ByGrade("grade")
  {
    var p := "/x" + GradePrefix + seg;
    assert GradeMatchAt(p, 2) by {
      assert p[2..2 + |GradePrefix|] == GradePrefix;
      assert p[2 + |GradePrefix|] == seg[0];
    }
    assert !HasIdPath(p) by {
      forall k: nat | k < |p| ensures !IdMatchAt(p, k) {
        if k + |IdPrefix| < |p| {
          IdMatchShape(p, k);
          SlashesOfUnanchoredGradePath(seg, k);
          SlashesOfUnanchoredGradePath(seg, k + 13);
          assert p[16] == 'g';
        }
      }
    }
    assert Split(p, '/')[4] == "grade" by {
      SplitAroundGradePrefix("/x", seg);
      assert "/x" == "" + ['/'] + "x";
      SplitAtSeparator("", "x", '/');
      SplitWithoutSeparator("x", '/');
    }
    assert p != "/" && p != StudentsPath by {
      assert |p| > |StudentsPath|;
    }
  }

  /** A `0x` id segment is read in hexadecimal: `/api/students/0x1f`
      names the student with id 31. */
  lemma HexadecimalId(seg: string)
    requires |seg| > 2 && seg[0] == '0' && seg[1] == 'x'
    requires forall i :: 2 <= i < |seg| ==> IsRadixDigit(seg[i], 16)
    ensures Dispatch("DELETE", IdPrefix + seg) == Delete(Some(DigitsValue(seg[2..], 16)))
  {
    var p := IdPrefix + seg;
    assert HasIdPath(p) by {
      IdPrefixMatches(seg);
    }
    assert Split(p, '/')[3] == seg by {
      assert '/' !in seg by {
        forall i | 0 <= i < |seg| ensures seg[i] != '/' {
          assert i < 2 || IsRadixDigit(seg[i], 16);
        }
      }
      FourthSegment(seg);
    }
    assert ParseInt(seg) == Some(DigitsValue(seg[2..], 16)) by {
      ParseIntHexPrefix(seg);
    }
    DispatchOnIdPath(p);
  }
}
