/** The tokens of the SQL scanner and its keyword table
    (src/sql/tokens.rs). */
module Tokens {
  import opened Strings
  import V = Values

  datatype TokenType =
    | LeftParen | RightParen | Comma | Dot | Minus | Plus | Star | Semicolon | Colon
    | Bang | Equals | Less | LessEqual | Greater | GreaterEqual | BangEquals | Unequal
    | Str | Num | Identifier
    | And | Else | False | Nil | Or | True | Select | From | Where | Union | Update
    | Insert | Group | Order | By | Having | Sum | Max | Min | Delete | Commit | Describe

  /** Token::new keeps its three arguments as they are. */
  datatype Token = Token(tokenType: TokenType, lexeme: string, literal: V.Value)

  /** The table add_keywords inserts, in its order. All keys are lower
      case except "NIL". */
  const KEYWORD_MAP: map<string, TokenType> := map[
    "and" := And,
    "else" := Else,
    "false" := False,
    "NIL" := Nil,
    "or" := Or,
    "true" := True,
    "select" := Select,
    "from" := From,
    "where" := Where,
    "union" := Union,
    "update" := Update,
    "insert" := Insert,
    "group" := Group,
    "order" := Order,
    "by" := By,
    "having" := Having,
    "sum" := Sum,
    "max" := Max,
    "min" := Min,
    "delete" := Delete,
    "commit" := Commit,
    "describe" := Describe]

  /** Storing into the right operand of a union is storing into the union. */
  lemma UnionStore<K, T>(a: map<K, T>, b: map<K, T>, k: K, v: T)
    ensures (a + b)[k := v] == a + b[k := v]
  {
  }

  /** The 22 insertions, one after the other, amount to a union with the
      keyword table. */
  lemma Inserted(keywords: map<string, TokenType>)
    ensures keywords["and" := And]["else" := Else]["false" := False]["NIL" := Nil]["or" := Or]["true" := True]["select" := Select]["from" := From]["where" := Where]["union" := Union]["update" := Update]["insert" := Insert]["group" := Group]["order" := Order]["by" := By]["having" := Having]["sum" := Sum]["max" := Max]["min" := Min]["delete" := Delete]["commit" := Commit]["describe" := Describe] == keywords + KEYWORD_MAP
  {
    var built: map<string, TokenType> := map[];
    assert keywords + built == keywords;
    UnionStore(keywords, built, "and", And);
    built := built["and" := And];
    UnionStore(keywords, built, "else", Else);
    built := built["else" := Else];
    UnionStore(keywords, built, "false", False);
    built := built["false" := False];
    UnionStore(keywords, built, "NIL", Nil);
    built := built["NIL" := Nil];
    UnionStore(keywords, built, "or", Or);
    built := built["or" := Or];
    UnionStore(keywords, built, "true", True);
    built := built["true" := True];
    UnionStore(keywords, built, "select", Select);
    built := built["select" := Select];
    UnionStore(keywords, built, "from", From);
    built := built["from" := From];
    UnionStore(keywords, built, "where", Where);
    built := built["where" := Where];
    UnionStore(keywords, built, "union", Union);
    built := built["union" := Union];
    UnionStore(keywords, built, "update", Update);
    built := built["update" := Update];
    UnionStore(keywords, built, "insert", Insert);
    built := built["insert" := Insert];
    UnionStore(keywords, built, "group", Group);
    built := built["group" := Group];
    UnionStore(keywords, built, "order", Order);
    built := built["order" := Order];
    UnionStore(keywords, built, "by", By);
    built := built["by" := By];
    UnionStore(keywords, built, "having", Having);
    built := built["having" := Having];
    UnionStore(keywords, built, "sum", Sum);
    built := built["sum" := Sum];
    UnionStore(keywords, built, "max", Max);
    built := built["max" := Max];
    UnionStore(keywords, built, "min", Min);
    built := built["min" := Min];
    UnionStore(keywords, built, "delete", Delete);
    built := built["delete" := Delete];
    UnionStore(keywords, built, "commit", Commit);
    built := built["commit" := Commit];
    UnionStore(keywords, built, "describe", Describe);
    built := built["describe" := Describe];
  }

  /** add_keywords: the keyword entries are inserted into `keywords`,
      replacing what those keys held; the other keys keep their entries. */
  method AddKeywords(keywords: map<string, TokenType>) returns (result: map<string, TokenType>)
    ensures result.Keys == keywords.Keys + KEYWORD_MAP.Keys
    ensures forall k :: k in KEYWORD_MAP ==> result[k] == KEYWORD_MAP[k]
    ensures forall k :: k in keywords && k !in KEYWORD_MAP ==> result[k] == keywords[k]
  {
    result := keywords;
    result := result["and" := And];
    result := result["else" := Else];
    result := result["false" := False];
    result := result["NIL" := Nil];
    result := result["or" := Or];
    result := result["true" := True];
    result := result["select" := Select];
    result := result["from" := From];
    result := result["where" := Where];
    result := result["union" := Union];
    result := result["update" := Update];
    result := result["insert" := Insert];
    result := result["group" := Group];
    result := result["order" := Order];
    result := result["by" := By];
    result := result["having" := Having];
    result := result["sum" := Sum];
    result := result["max" := Max];
    result := result["min" := Min];
    result := result["delete" := Delete];
    result := result["commit" := Commit];
    result := result["describe" := Describe];
    Inserted(keywords);
  }

  /** The 22 keys are distinct, so the table holds 22 entries. */
  lemma KeywordCount()
    ensures |KEYWORD_MAP| == 22
  {
    var built: map<string, TokenType> := map[];
    assert "and" !in built;
    built := built["and" := And];
    assert "else" !in built;
    built := built["else" := Else];
    assert "false" !in built;
    built := built["false" := False];
    assert "NIL" !in built;
    built := built["NIL" := Nil];
    assert "or" !in built;
    built := built["or" := Or];
    assert "true" !in built;
    built := built["true" := True];
    assert "select" !in built;
    built := built["select" := Select];
    assert "from" !in built;
    built := built["from" := From];
    assert "where" !in built;
    built := built["where" := Where];
    assert "union" !in built;
    built := built["union" := Union];
    assert "update" !in built;
    built := built["update" := Update];
    assert "insert" !in built;
    built := built["insert" := Insert];
    assert "group" !in built;
    built := built["group" := Group];
    assert "order" !in built;
    built := built["order" := Order];
    assert "by" !in built;
    built := built["by" := By];
    assert "having" !in built;
    built := built["having" := Having];
    assert "sum" !in built;
    built := built["sum" := Sum];
    assert "max" !in built;
    built := built["max" := Max];
    assert "min" !in built;
    built := built["min" := Min];
    assert "delete" !in built;
    built := built["delete" := Delete];
    assert "commit" !in built;
    built := built["commit" := Commit];
    assert "describe" !in built;
    built := built["describe" := Describe];
    assert built == KEYWORD_MAP;
  }

  /** The keyword found for a lower-cased text is never Nil: its key "NIL"
      is upper case, and lower-casing leaves no upper-case letter. */
  lemma LowerNeverNil(text: string)
    ensures Lower(text) in KEYWORD_MAP ==> KEYWORD_MAP[Lower(text)] != Nil
  {
    var l := Lower(text);
    assert |l| > 0 ==> l[0] != 'N';
    assert l != "NIL";
  }
}
