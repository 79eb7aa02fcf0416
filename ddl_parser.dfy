/** The parse that `get_database_properties` applies to the text of a
    `SHOW CREATE DATABASE` result: the "Owner" field is the stripped text
    between "CREATE DATABASE" and "CHARACTER SET", the "Collation" field
    the stripped text after "COLLATE".  Python's `find`, slicing and
    `strip` are followed exactly, so a missing keyword does not fail the
    parse: `find` gives -1 and the slice bounds shift accordingly. */
module DdlParser {
  import opened Py

  /** The two entries of the dict the source builds. */
  datatype Properties = Properties(owner: string, collation: string)

  const CreateKeyword := "CREATE DATABASE"
  const CharsetKeyword := "CHARACTER SET"
  const CollateKeyword := "COLLATE"

  /** `find("CREATE DATABASE") + 15`: 14 when the keyword is missing. */
  function OwnerStart(stmt: string): int {
    Find(stmt, CreateKeyword) + |CreateKeyword|
  }

  /** `find("CHARACTER SET")`, or the end of the text when it is missing. */
  function OwnerEnd(stmt: string): int {
    if Find(stmt, CharsetKeyword) != -1 then Find(stmt, CharsetKeyword) else |stmt|
  }

  /** `find("COLLATE") + 7`, or the end of the text when it is missing. */
  function CollationStart(stmt: string): int {
    if Find(stmt, CollateKeyword) != -1 then Find(stmt, CollateKeyword) + |CollateKeyword| else |stmt|
  }

  function Owner(stmt: string): string {
    Strip(Slice(stmt, OwnerStart(stmt), OwnerEnd(stmt)))
  }

  function Collation(stmt: string): string {
    Strip(Slice(stmt, CollationStart(stmt), |stmt|))
  }

  function Parse(stmt: string): Properties {
    Properties(Owner(stmt), Collation(stmt))
  }

  /** The owner field is the stripped infix between the end of the first
      "CREATE DATABASE" and the first "CHARACTER SET" (or the end of the
      text); with no "CREATE DATABASE" the infix starts at index 14; when
      the two bounds cross, the field is empty. */
  lemma OwnerField(stmt: string)
    ensures var a, e := OwnerStart(stmt), OwnerEnd(stmt);
      && (a == 14 <==> !Contains(stmt, CreateKeyword))
      && (Contains(stmt, CreateKeyword) ==> a >= 15)
      && (a < e ==> IsStripOf(stmt[a..e], Parse(stmt).owner))
      && (a >= e ==> Parse(stmt).owner == [])
  {
    var a, e := OwnerStart(stmt), OwnerEnd(stmt);
    assert 0 <= e <= |stmt|;
    if a < e {
      var infix := stmt[a..e];
      assert Slice(stmt, a, e) == infix;
      StripCharacterised(infix, Owner(stmt));
    } else {
      assert Slice(stmt, a, e) == [];
    }
  }

  /** The collation field is empty when there is no "COLLATE", and
      otherwise the stripped rest of the text after the first one. */
  lemma CollationField(stmt: string)
    ensures !Contains(stmt, CollateKeyword) ==> Parse(stmt).collation == []
    ensures Contains(stmt, CollateKeyword) ==>
      IsStripOf(stmt[Find(stmt, CollateKeyword) + |CollateKeyword|..], Parse(stmt).collation)
  {
    var c := CollationStart(stmt);
    assert 0 <= c <= |stmt|;
    var rest := stmt[c..];
    assert Slice(stmt, c, |stmt|) == rest;
    if Contains(stmt, CollateKeyword) {
      StripCharacterised(rest, Collation(stmt));
    } else {
      assert rest == [];
    }
  }

  /** A text whose keywords are first found at the given places splits
      into its fields there. */
  lemma FieldsAt(stmt: string, ownerText: string, m: nat, collationText: string)
    requires Find(stmt, CreateKeyword) == 0
    requires Find(stmt, CharsetKeyword) == |CreateKeyword| + |ownerText|
    requires Find(stmt, CollateKeyword) == m && m + |CollateKeyword| <= |stmt|
    requires stmt[|CreateKeyword|..|CreateKeyword| + |ownerText|] == ownerText
    requires stmt[m + |CollateKeyword|..] == collationText
    ensures Parse(stmt) == Properties(Strip(ownerText), Strip(collationText))
  {
    assert Slice(stmt, OwnerStart(stmt), OwnerEnd(stmt)) == ownerText;
    assert Slice(stmt, CollationStart(stmt), |stmt|) == collationText;
  }

  /** The three keywords in order, with the texts between them. */
  function Clauses(ownerText: string, charsetText: string, collationText: string): string {
    CreateKeyword + ownerText + CharsetKeyword + charsetText + CollateKeyword + collationText
  }

  lemma CreateFoundFirst(ownerText: string, charsetText: string, collationText: string)
    ensures Find(Clauses(ownerText, charsetText, collationText), CreateKeyword) == 0
  {
    var rest := ownerText + CharsetKeyword + charsetText + CollateKeyword + collationText;
    assert Clauses(ownerText, charsetText, collationText) == CreateKeyword + rest;
    FindAtStart(CreateKeyword, rest);
  }

  lemma CharsetFoundAfterOwner(ownerText: string, charsetText: string, collationText: string)
    requires StartsNowhereIn(CreateKeyword + ownerText, CharsetKeyword)
    ensures Find(Clauses(ownerText, charsetText, collationText), CharsetKeyword) == |CreateKeyword| + |ownerText|
  {
    var a := CreateKeyword + ownerText;
    var rest := charsetText + CollateKeyword + collationText;
    assert Clauses(ownerText, charsetText, collationText) == a + CharsetKeyword + rest;
    FindAfter(a, CharsetKeyword, rest);
  }

  lemma CollateFoundAfterCharset(ownerText: string, charsetText: string, collationText: string)
    requires StartsNowhereIn(CreateKeyword + ownerText + CharsetKeyword + charsetText, CollateKeyword)
    ensures Find(Clauses(ownerText, charsetText, collationText), CollateKeyword)
         == |CreateKeyword + ownerText + CharsetKeyword + charsetText|
  {
    FindAfter(CreateKeyword + ownerText + CharsetKeyword + charsetText, CollateKeyword, collationText);
  }

  lemma ClauseTexts(ownerText: string, charsetText: string, collationText: string)
    ensures var stmt, m := Clauses(ownerText, charsetText, collationText), |CreateKeyword + ownerText + CharsetKeyword + charsetText|;
      && stmt[|CreateKeyword|..|CreateKeyword| + |ownerText|] == ownerText
      && stmt[m + |CollateKeyword|..] == collationText
  {
  }

  /** A text made of the three keywords in order, each starting nowhere
      before its own place, splits into its fields at those keywords. */
  lemma ParseFields(ownerText: string, charsetText: string, collationText: string)
    requires StartsNowhereIn(CreateKeyword + ownerText, CharsetKeyword)
    requires StartsNowhereIn(CreateKeyword + ownerText + CharsetKeyword + charsetText, CollateKeyword)
    ensures Parse(Clauses(ownerText, charsetText, collationText)) == Properties(Strip(ownerText), Strip(collationText))
  {
    CreateFoundFirst(ownerText, charsetText, collationText);
    CharsetFoundAfterOwner(ownerText, charsetText, collationText);
    CollateFoundAfterCharset(ownerText, charsetText, collationText);
    ClauseTexts(ownerText, charsetText, collationText);
    FieldsAt(Clauses(ownerText, charsetText, collationText), ownerText,
             |CreateKeyword + ownerText + CharsetKeyword + charsetText|, collationText);
  }

  // ---------------------------------------------------------------------
  // Reading back the statements a server reports for a database

  function Backticked(name: string): string {
    "`" + name + "`"
  }

  /** `CREATE DATABASE `name` CHARACTER SET cs COLLATE co`. */
  function CreateStatement(name: string, charset: string, collation: string): string {
    Clauses(" " + Backticked(name) + " ", " " + charset + " ", " " + collation)
  }

  /** Neither clause keyword starts before its own clause: the name holds no
      "CHARACTER SET" and neither name nor character set holds "COLLATE". */
  predicate ClausesInPlace(name: string, charset: string) {
    && StartsNowhereIn(CreateKeyword + (" " + Backticked(name) + " "), CharsetKeyword)
    && StartsNowhereIn(CreateKeyword + (" " + Backticked(name) + " ") + CharsetKeyword + (" " + charset + " "), CollateKeyword)
  }

  lemma BacktickedTrimmed(name: string)
    ensures Trimmed(Backticked(name))
  {
    var t := Backticked(name);
    assert t[0] == '`' && t[|t| - 1] == '`';
  }

  /** Parsing the creation statement of a database gives back its
      backtick-quoted name as the owner field and its collation. */
  lemma ParseCreateStatement(name: string, charset: string, collation: string)
    requires ClausesInPlace(name, charset)
    requires Trimmed(collation)
    ensures Parse(CreateStatement(name, charset, collation)) == Properties(Backticked(name), collation)
  {
    ParseFields(" " + Backticked(name) + " ", " " + charset + " ", " " + collation);
    SpacedBackticked(name);
    LeadingSpace(collation);
  }

  lemma SpacedBackticked(name: string)
    ensures Strip(" " + Backticked(name) + " ") == Backticked(name)
  {
    BacktickedTrimmed(name);
    StripPadded(" ", Backticked(name), " ");
  }

  lemma LeadingSpace(t: string)
    requires Trimmed(t)
    ensures Strip(" " + t) == t
  {
    assert " " + t == " " + t + "";
    StripPadded(" ", t, "");
  }

  /** No upper-case `C`, the first letter of all three keywords. */
  predicate NoCapitalC(t: string) {
    forall k :: 0 <= k < |t| ==> t[k] != 'C'
  }

  lemma SpacedWithoutC(t: string, pad: string)
    requires NoCapitalC(t) && NoCapitalC(pad)
    ensures NoCapitalC(pad + t + pad)
  {
    var spaced := pad + t + pad;
    forall k | 0 <= k < |spaced| ensures spaced[k] != 'C' {
      if k < |pad| {
        assert spaced[k] == pad[k];
      } else if k < |pad| + |t| {
        assert spaced[k] == t[k - |pad|];
      } else {
        assert spaced[k] == pad[k - |pad| - |t|];
      }
    }
  }

  /** No "CHARACTER SET" starts before its clause when the name has no `C`. */
  lemma CharsetInPlace(named: string)
    requires NoCapitalC(named)
    ensures StartsNowhereIn(CreateKeyword + named, CharsetKeyword)
  {
    var a := CreateKeyword + named;
    var w := a + CharsetKeyword;
    forall k | 0 <= k < |a| ensures w[k] != 'C' || w[k + 1] != 'H' {
      if k == 0 {
        assert w[1] == 'R';
      } else if k < |CreateKeyword| {
        assert w[k] == CreateKeyword[k];
      } else {
        assert w[k] == named[k - |CreateKeyword|];
      }
    }
    NoPairStart(a, CharsetKeyword);
  }

  /** No "COLLATE" starts before its clause when neither the name nor the
      character set has a `C`. */
  lemma CollateInPlace(named: string, spaced: string)
    requires NoCapitalC(named) && NoCapitalC(spaced)
    ensures StartsNowhereIn(CreateKeyword + named + CharsetKeyword + spaced, CollateKeyword)
  {
    var a := CreateKeyword + named;
    var m := a + CharsetKeyword + spaced;
    var v := m + CollateKeyword;
    forall k | 0 <= k < |m| ensures v[k] != 'C' || v[k + 1] != 'O' {
      if k == 0 {
        assert v[1] == 'R';
      } else if k < |CreateKeyword| {
        assert v[k] == CreateKeyword[k];
      } else if k < |a| {
        assert v[k] == named[k - |CreateKeyword|];
      } else if k < |a| + |CharsetKeyword| {
        var j := k - |a|;
        assert v[k] == CharsetKeyword[j];
        if j == 0 {
          assert v[k + 1] == 'H';
        } else if j == 5 {
          assert v[k + 1] == 'T';
        }
      } else {
        assert v[k] == spaced[k - |a| - |CharsetKeyword|];
      }
    }
    NoPairStart(m, CollateKeyword);
  }

  /** Names and character sets written without an upper-case `C` (MySQL
      lists both in lower case) keep the clause keywords in place. */
  lemma ClausesInPlaceWithoutC(name: string, charset: string)
    requires NoCapitalC(name) && NoCapitalC(charset)
    ensures ClausesInPlace(name, charset)
  {
    assert NoCapitalC("`" + name + "`") by { SpacedWithoutC(name, "`"); }
    assert " " + Backticked(name) + " " == " " + ("`" + name + "`") + " ";
    SpacedWithoutC("`" + name + "`", " ");
    SpacedWithoutC(charset, " ");
    CharsetInPlace(" " + Backticked(name) + " ");
    CollateInPlace(" " + Backticked(name) + " ", " " + charset + " ");
  }

  /** The statement `CREATE DATABASE `d` CHARACTER SET utf8 COLLATE
      utf8_general_ci` parses to owner "`d`" and collation "utf8_general_ci". */
  lemma ParseExample(name: string, charset: string, collation: string)
    requires name == "d" && charset == "utf8" && collation == "utf8_general_ci"
    ensures Parse(CreateStatement(name, charset, collation)) == Properties("`d`", "utf8_general_ci")
  {
    assert Backticked(name) == "`d`";
    assert NoCapitalC(name) && NoCapitalC(charset);
    assert collation[0] == 'u' && collation[|collation| - 1] == 'i';
    ClausesInPlaceWithoutC(name, charset);
    ParseCreateStatement(name, charset, collation);
  }

  /** MySQL 8 wraps the character set and collation in a version comment. */
  const CommentOpen := " /*!40100 DEFAULT"
  const CommentClose := " */"

  /** The comment MySQL 8.0.16 and later append after the first one. */
  const EncryptionComment := " /*!80016 DEFAULT ENCRYPTION='N' */"

  /** The form MySQL 8 reports,
      `CREATE DATABASE `name` /*!40100 DEFAULT CHARACTER SET cs COLLATE co */`,
      followed by `trailer`: nothing before 8.0.16, `EncryptionComment` from
      then on. */
  function VersionedCreateStatement(name: string, charset: string, collation: string, trailer: string): string {
    Clauses(" " + Backticked(name) + CommentOpen + " ", " " + charset + " ", " " + collation + CommentClose + trailer)
  }

  lemma VersionedOwner(name: string)
    ensures Strip(" " + Backticked(name) + CommentOpen + " ") == Backticked(name) + CommentOpen
  {
    var owner := Backticked(name) + CommentOpen;
    assert owner[0] == '`';
    assert owner[|owner| - 1] == CommentOpen[|CommentOpen| - 1];
    assert " " + Backticked(name) + CommentOpen + " " == " " + owner + " ";
    StripPadded(" ", owner, " ");
  }

  lemma VersionedCollation(collation: string, trailer: string)
    requires collation != [] && !IsSpace(collation[0])
    requires trailer == [] || !IsSpace(trailer[|trailer| - 1])
    ensures Strip(" " + collation + CommentClose + trailer) == collation + CommentClose + trailer
  {
    var tail := collation + CommentClose + trailer;
    assert tail[0] == collation[0];
    if trailer == [] {
      assert tail[|tail| - 1] == CommentClose[|CommentClose| - 1];
    } else {
      assert tail[|tail| - 1] == trailer[|trailer| - 1];
    }
    assert " " + collation + CommentClose + trailer == " " + tail + "";
    StripPadded(" ", tail, "");
  }

  /** On that form the owner field holds the quoted name followed by the
      opening of the comment, and the collation field runs on to the end of
      the text: the closing of the comment and any trailer are part of it. */
  lemma ParseVersionedCreateStatement(name: string, charset: string, collation: string, trailer: string)
    requires StartsNowhereIn(CreateKeyword + (" " + Backticked(name) + CommentOpen + " "), CharsetKeyword)
    requires StartsNowhereIn(CreateKeyword + (" " + Backticked(name) + CommentOpen + " ") + CharsetKeyword
                             + (" " + charset + " "), CollateKeyword)
    requires collation != [] && !IsSpace(collation[0])
    requires trailer == [] || !IsSpace(trailer[|trailer| - 1])
    ensures Parse(VersionedCreateStatement(name, charset, collation, trailer))
         == Properties(Backticked(name) + CommentOpen, collation + CommentClose + trailer)
  {
    ParseFields(" " + Backticked(name) + CommentOpen + " ", " " + charset + " ", " " + collation + CommentClose + trailer);
    VersionedOwner(name);
    VersionedCollation(collation, trailer);
  }

  /** From MySQL 8.0.16 on, the encryption comment ends up in the collation field. */
  lemma ParseEncryptedCreateStatement(name: string, charset: string, collation: string)
    requires StartsNowhereIn(CreateKeyword + (" " + Backticked(name) + CommentOpen + " "), CharsetKeyword)
    requires StartsNowhereIn(CreateKeyword + (" " + Backticked(name) + CommentOpen + " ") + CharsetKeyword
                             + (" " + charset + " "), CollateKeyword)
    requires collation != [] && !IsSpace(collation[0])
    ensures Parse(VersionedCreateStatement(name, charset, collation, EncryptionComment)).collation
         == collation + CommentClose + EncryptionComment
  {
    assert EncryptionComment[|EncryptionComment| - 1] == '/';
    ParseVersionedCreateStatement(name, charset, collation, EncryptionComment);
  }
}
