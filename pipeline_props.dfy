/**
 * How the two scripts meet: the module pages gather-docs.ts writes under
 * `src/content/docs/modules` are among the pages generate-llms-txt.ts reads.
 * Paths of the gathered tree are relative to that `modules` directory.
 */
module Pipeline {
  import opened Wrappers
  import opened JsText
  import opened FileTree
  import opened LlmsSort
  import opened LlmsText
  import opened LlmsTxt
  import opened LlmsProps
  import opened GatherDocs

  lemma TitleKeyFirstAfterDelimiter()
    ensures forall i :: 0 <= i < |"---\n"| ==> !OccursAt("---\n" + ("title" + ":"), "title" + ":", i)
  {
    var pre := "---\n";
    var pattern := "title" + ":";
    forall i | 0 <= i < |pre|
      ensures !OccursAt(pre + pattern, pattern, i)
    {
      assert (pre + pattern)[i] != 't';
    }
  }

  /** The `title:` that gather-docs puts in front of a README is the title the summary shows. */
  lemma InjectedTitleIsRead(readme: string, moduleName: string)
    requires OneLineValue(moduleName) && moduleName != []
    requires !StartsWith(Trim(readme), "---")
    ensures FieldCapture(WithFrontMatter(readme, moduleName), "title") == Some(moduleName)
  {
    var rest := "\n---\n\n" + readme;
    var s := "---\n" + ("title" + ":") + " " + moduleName + rest;
    assert FieldCapture(s, "title") == Some(moduleName) by {
      assert IsLineTerminator(rest[0]);
      TitleKeyFirstAfterDelimiter();
      FieldCaptureReadsLine("---\n", "title", " ", moduleName, rest);
    }
    assert s == WithFrontMatter(readme, moduleName) by {
      TitleLineSplits(readme, moduleName);
    }
  }

  lemma TitleLineSplits(readme: string, moduleName: string)
    ensures "---\n" + ("title" + ":") + " " + moduleName + ("\n---\n\n" + readme) == FrontMatter(moduleName) + readme
  {
    assert "---\n" + ("title" + ":") + " " == "---\ntitle: ";
  }

  lemma TrimSkipsBlankLines(s: string)
    ensures Trim("\n\n" + s) == Trim(s)
  {
    var t := "\n\n" + s;
    assert t[1..] == "\n" + s;
    assert t[1..][1..] == s;
    assert TrimStart(t) == TrimStart(t[1..]);
    assert TrimStart(t[1..]) == TrimStart(s);
  }

  /** Between the two delimiters of the injected front matter there is no third `---`. */
  lemma FrontMatterInnerHasNoDelimiter(moduleName: string)
    requires forall i :: 0 <= i ==> !OccursAt(moduleName, "---", i)
    ensures var fm := "\ntitle: " + moduleName + "\n";
      forall i :: 0 <= i < |fm| ==> !OccursAt(fm + "---", "---", i)
  {
    var fm := "\ntitle: " + moduleName + "\n";
    var t := fm + "---";
    var n := |moduleName|;
    forall i | 0 <= i < |fm|
      ensures !OccursAt(t, "---", i)
    {
      if i < 8 {
        assert t[i] != '-';
      } else if i + 3 <= 8 + n {
        assert t[i..i + 3] == moduleName[i - 8..i - 5];
        assert !OccursAt(moduleName, "---", i - 8);
      } else {
        assert t[8 + n] == '\n';
      }
    }
  }

  lemma FrontMatterSplits(readme: string, moduleName: string)
    ensures "" + "---" + ("\ntitle: " + moduleName + "\n") + "---" + ("\n\n" + readme) == FrontMatter(moduleName) + readme
    ensures "" + ("\n\n" + readme) == "\n\n" + readme
  {
  }

  /** The front matter gather-docs adds is exactly what the full text leaves out. */
  lemma InjectedFrontMatterIsRemoved(readme: string, moduleName: string)
    requires forall i :: 0 <= i ==> !OccursAt(moduleName, "---", i)
    requires !StartsWith(Trim(readme), "---")
    ensures CleanContent(WithFrontMatter(readme, moduleName)) == Trim(readme)
  {
    var fm := "\ntitle: " + moduleName + "\n";
    var body := "\n\n" + readme;
    FrontMatterInnerHasNoDelimiter(moduleName);
    CleanContentDropsBlock("", fm, body);
    FrontMatterSplits(readme, moduleName);
    TrimSkipsBlankLines(readme);
  }

  /** A module's index page is served at its sidebar link, with a trailing slash. */
  lemma ModuleIndexUrl(moduleName: string)
    ensures UrlPath(JoinPath(["modules", moduleName, IndexPage])) == ModuleLink(moduleName) + "/"
  {
    var p := ["modules", moduleName, IndexPage];
    assert p[..2] == ["modules", moduleName] && p[..2][..1] == ["modules"];
    assert JoinPath(p[..2]) == "modules" + "/" + moduleName;
    assert JoinPath(p) == "modules" + "/" + moduleName + "/" + "index.md";
    assert "modules" + "/" + moduleName + "/" + "index.md" == ("modules/" + moduleName + "/") + "index" + ".md";
    IndexPageUrl("modules/" + moduleName + "/");
  }

  /** A README-only module page is served at its sidebar link. */
  lemma ModulePageUrl(moduleName: string)
    requires !EndsWith(moduleName, "index")
    ensures UrlPath(JoinPath(["modules", moduleName + ".md"])) == ModuleLink(moduleName)
  {
    assert JoinPath(["modules", moduleName + ".md"]) == ("modules/" + moduleName) + ".md" by {
      assert ["modules", moduleName + ".md"][..1] == ["modules"];
    }
    var m := "modules/" + moduleName;
    if |moduleName| >= 5 {
      assert m[|m| - 5..] == moduleName[|moduleName| - 5..];
    } else {
      assert m[7] == '/';
      assert !EndsWith(m, "index") by {
        assert "index"[4 - |moduleName|] != '/';
      }
    }
    PageUrl("modules/" + moduleName);
  }

  /** Module pages sort with the third priority entry, `modules`. */
  lemma ModulePagesRankThird(rest: string)
    ensures PriorityIndex("modules/" + rest) == 2
  {
    var s := "modules/" + rest;
    assert s[0] == 'm';
    assert !StartsWith(s, Priority[0]) by { assert Priority[0][0] == 'i'; }
    assert !StartsWith(s, Priority[1]) by { assert Priority[1][0] == 'a'; }
    assert StartsWith(s, Priority[2]) by { assert s[..7] == "modules"; }
  }
}
