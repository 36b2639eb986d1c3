/**
 * The rendering and response-checking part of the `Plantilla` view module:
 * the table of placeholder tokens, the HTML templates of the person table,
 * the token substitution that turns a person record into a table row, the
 * listing of a vector of persons, and the two views that fall back to a
 * sentinel when the microservice's answer is missing or malformed.
 *
 * Writing into the page (`Frontend.Article.actualizar(title, body)`) is
 * modelled by returning an `ArticleUpdate` holding the two arguments.
 */
module Plantilla {
  import opened JsValues
  import opened Text

  /** The arguments of the final `Frontend.Article.actualizar(title, content)` call. */
  datatype ArticleUpdate = ArticleUpdate(title: string, content: JsValue)

  // ---------------------------------------------------------------------------
  // The tag table `Plantilla.plantillaTags`

  /** The keys of the tag table, in the order in which the tokens are replaced. */
  const TagKeys: seq<string> := [
    "NOMBRE", "FECHA_NACIMIENTO", "NACIONALIDAD", "PESO", "ALTURA",
    "PARTICIPACIONJJOO", "FEDERADO", "PESO_ESPADA", "SEXO", "VICTORIAS"
  ]

  /** The token of a tag: its key framed by "### " and " ###". */
  function Token(key: string): (t: string)
    ensures |t| == |key| + 8
  {
    "### " + key + " ###"
  }

  /** `Plantilla.plantillaTags`: each key maps to its token, so that for
      instance `NOMBRE` maps to "### NOMBRE ###". */
  const PlantillaTags: map<string, string> := map[
    "NOMBRE" := Token("NOMBRE"),
    "FECHA_NACIMIENTO" := Token("FECHA_NACIMIENTO"),
    "NACIONALIDAD" := Token("NACIONALIDAD"),
    "PESO" := Token("PESO"),
    "ALTURA" := Token("ALTURA"),
    "PARTICIPACIONJJOO" := Token("PARTICIPACIONJJOO"),
    "FEDERADO" := Token("FEDERADO"),
    "PESO_ESPADA" := Token("PESO_ESPADA"),
    "SEXO" := Token("SEXO"),
    "VICTORIAS" := Token("VICTORIAS")
  ]

  /** The tokens, in replacement order. */
  const Tokens: seq<string> := [
    Token("NOMBRE"),
    Token("FECHA_NACIMIENTO"),
    Token("NACIONALIDAD"),
    Token("PESO"),
    Token("ALTURA"),
    Token("PARTICIPACIONJJOO"),
    Token("FEDERADO"),
    Token("PESO_ESPADA"),
    Token("SEXO"),
    Token("VICTORIAS")
  ]

  /** `Plantilla.plantillaTags.<key>`: the property read on the table. */
  function TagValue(key: string): JsValue
  {
    if key in PlantillaTags then Str(PlantillaTags[key]) else Undefined
  }

  /** Each of the ten keys reads as its own token, and any other
      own-property name as `undefined`. */
  lemma TagValueSpelled(key: string)
    ensures key in TagKeys ==> TagValue(key) == Str(Token(key))
    ensures key !in TagKeys ==> TagValue(key) == Undefined
  {
    TagKeysDomain();
    TagValues();
  }

  predicate NameChar(c: char)
  {
    ('A' <= c <= 'Z') || c == '_'
  }

  /** `t` is spelled `"### " + name + " ###"` with a non-empty name of capital
      letters and underscores. */
  predicate IsToken(t: string)
  {
    && |t| >= 9
    && forall k :: 0 <= k < |t| ==>
         && ((k < 3 || k >= |t| - 3) ==> t[k] == '#')
         && ((k == 3 || k == |t| - 4) ==> t[k] == ' ')
         && ((3 < k < |t| - 4) ==> NameChar(t[k]))
  }

  /** Each value of the table is the token of its key. */
  lemma TagValues()
    ensures forall k :: k in PlantillaTags ==> PlantillaTags[k] == Token(k)
  {
  }

  /** The table maps each of its ten keys, and nothing else, to the token at
      the same position of the replacement order. */
  lemma TagKeysTable()
    ensures |TagKeys| == |Tokens| == 10
    ensures forall k :: k in PlantillaTags <==> k in TagKeys
    ensures forall i :: 0 <= i < |TagKeys| ==> PlantillaTags[TagKeys[i]] == Tokens[i]
  {
    TagKeysDomain();
    TagValues();
    TokensSpelled();
  }

  /** The keys of the table are exactly the ten keys of the replacement order. */
  lemma TagKeysDomain()
    ensures forall k :: k in PlantillaTags <==> k in TagKeys
  {
  }

  /** Every token has the shape `IsToken` describes. */
  lemma TokensWellFormed()
    ensures |Tokens| == 10
    ensures forall i :: 0 <= i < |Tokens| ==> IsToken(Tokens[i])
  {
    KeysNamed();
    TokensSpelled();
    forall i | 0 <= i < |Tokens|
      ensures IsToken(Tokens[i])
    {
      SpelledIsToken(TagKeys[i]);
    }
  }

  lemma KeysNamed()
    ensures |TagKeys| == 10
    ensures forall i :: 0 <= i < |TagKeys| ==> |TagKeys[i]| > 0 && forall k :: 0 <= k < |TagKeys[i]| ==> NameChar(TagKeys[i][k])
  {
  }

  lemma SpelledIsToken(key: string)
    requires |key| > 0 && forall k :: 0 <= k < |key| ==> NameChar(key[k])
    ensures IsToken(Token(key))
  {
    var t := Token(key);
    forall k | 3 < k < |t| - 4
      ensures NameChar(t[k])
    {
      assert t[k] == key[k - 4];
    }
  }

  /** Different keys have different tokens. */
  lemma TokenInjective(a: string, b: string)
    requires Token(a) == Token(b)
    ensures a == b
  {
    assert a == Token(a)[4..|a| + 4];
    assert b == Token(b)[4..|b| + 4];
  }

  /** The token at each position of the replacement order is the token of the
      key at that position. */
  lemma TokensSpelled()
    ensures |Tokens| == |TagKeys| == 10
    ensures forall i :: 0 <= i < |Tokens| ==> Tokens[i] == Token(TagKeys[i])
  {
  }

  /** The ten keys are distinct, and so are their tokens. */
  lemma TokensDistinct()
    ensures |Tokens| == 10
    ensures forall i, j :: 0 <= i < |Tokens| && 0 <= j < |Tokens| && i != j ==> Tokens[i] != Tokens[j]
  {
    assert forall i, j :: 0 <= i < |TagKeys| && 0 <= j < |TagKeys| && i != j ==> TagKeys[i] != TagKeys[j];
    forall i, j | 0 <= i < |Tokens| && 0 <= j < |Tokens| && Tokens[i] == Tokens[j]
      ensures i == j
    {
      TokensSpelled();
      TokenInjective(TagKeys[i], TagKeys[j]);
    }
  }

  /** The tokens can serve as the patterns of `ReplaceEach`. */
  lemma TokensTable(reps: seq<string>)
    requires |reps| == 10
    ensures Table(Tokens, reps)
  {
  }

  /** The table has no `ID` key. */
  lemma NoIdTag()
    ensures "ID" !in TagKeys && "ID" !in PlantillaTags && TagValue("ID") == Undefined
    ensures ToString(TagValue("ID")) == "undefined"
  {
  }

  /** Only '#', ' ' and name characters appear in a token. */
  lemma TokenChars(t: string)
    requires IsToken(t)
    ensures '#' in t && '<' !in t && '>' !in t && '$' !in t && '/' !in t
  {
    assert t[0] == '#';
  }

  /** No token occurs inside another one: a token can only match at the start
      of another (its "###" cannot meet the other's inner space or name), and
      there its own closing " ###" meets the other's name. */
  lemma TokenNoOccurrence(p: string, s: string)
    requires IsToken(p) && IsToken(s) && p != s
    ensures !Occurs(p, s)
  {
    forall i: nat | i + |p| <= |s|
      ensures !OccursAt(p, s, i)
    {
      var w := s[i..i + |p|];
      if i == 0 {
        if |p| == |s| {
          assert w == s;
        } else {
          var k := |p| - 4;
          assert p[k] == ' ' && w[k] == s[k] && NameChar(s[k]);
        }
      } else if i < 3 {
        assert p[3 - i] == '#' && w[3 - i] == s[3] == ' ';
      } else {
        assert p[0] == '#' && w[0] == s[i];
        assert i == 3 || NameChar(s[i]);
      }
    }
  }

  lemma TokensDisjoint()
    ensures forall i, j :: 0 <= i < |Tokens| && 0 <= j < |Tokens| && i != j ==> !Occurs(Tokens[i], Tokens[j])
  {
    TokensWellFormed();
    TokensDistinct();
    forall i, j | 0 <= i < |Tokens| && 0 <= j < |Tokens| && i != j
      ensures !Occurs(Tokens[i], Tokens[j])
    {
      TokenNoOccurrence(Tokens[i], Tokens[j]);
    }
  }

  /** No token of the table occurs in `s`. */
  ghost predicate TokenFree(s: string)
  {
    forall i :: 0 <= i < |Tokens| ==> !Occurs(Tokens[i], s)
  }

  /** A string without '#' contains no token. */
  lemma HashFreeTokenFree(s: string)
    requires '#' !in s
    ensures TokenFree(s)
  {
    TokensWellFormed();
    forall i | 0 <= i < |Tokens|
      ensures !Occurs(Tokens[i], s)
    {
      TokenChars(Tokens[i]);
      AbsentCharNoOccurrence(Tokens[i], s, '#');
    }
  }

  // ---------------------------------------------------------------------------
  // The templates `Plantilla.plantillaTablaPersonas.{cabecera, cuerpo, pie}`

  const Cabecera: string :=
    "<table width=\"100%\" class=\"listado-personas\">\n"
    + "                    <thead>\n"
    + "                        <th width=\"10%\">Nombre</th>\n"
    + "                        <th width=\"10%\">Fecha_nacimiento</th>\n"
    + "                        <th width=\"10%\">Nacionalidad</th>\n"
    + "                        <th width=\"10%\">Peso</th>\n"
    + "                        <th width=\"10%\">Altura</th>\n"
    + "                        <th width=\"10%\">ParticipacionJJOO</th>\n"
    + "                        <th width=\"10%\">Federado</th>\n"
    + "                        <th width=\"10%\">Peso_espada</th>\n"
    + "                        <th width=\"10%\">Sexo</th>\n"
    + "                        <th width=\"10%\">Victorias</th>\n"
    + "                    </thead>\n"
    + "                    <tbody>\n"
    + "    "

  const Pie: string :=
    "        </tbody>\n"
    + "             </table>\n"
    + "             "

  /** The fixed text of the row template `cuerpo` before its first cell; its
      `title` attribute interpolates `plantillaTags.ID`. */
  const RowStart: string := "\n    <tr title=\"" + ToString(TagValue("ID")) + "\">\n        <td>"

  /** The fixed text of `cuerpo` between two cells. */
  const CellBreak: string := "</td>\n        <td>"

  /** The fixed text of `cuerpo` after its last cell. */
  const RowEnd: string := "</td>\n        \n    </tr>\n    "

  /** The fixed texts of `cuerpo`, around and between its ten cells. */
  const RowPieces: seq<string> := [
    RowStart, CellBreak, CellBreak, CellBreak, CellBreak, CellBreak,
    CellBreak, CellBreak, CellBreak, CellBreak, RowEnd
  ]

  /** The interpolations of the ten cells of `cuerpo`. */
  const RowCells: seq<string> := [
    ToString(TagValue("NOMBRE")),
    ToString(TagValue("FECHA_NACIMIENTO")),
    ToString(TagValue("NACIONALIDAD")),
    ToString(TagValue("PESO")),
    ToString(TagValue("ALTURA")),
    ToString(TagValue("PARTICIPACIONJJOO")),
    ToString(TagValue("FEDERADO")),
    ToString(TagValue("PESO_ESPADA")),
    ToString(TagValue("SEXO")),
    ToString(TagValue("VICTORIAS"))
  ]

  /** The string that the template literal `cuerpo` evaluates to: each cell
      holds the token of its tag (CuerpoTemplate shows that these are the
      interpolations `RowCells`). The row opens with its `title` attribute. */
  function Cuerpo(): (c: string)
    ensures RowStart <= c
  {
    RowStart + (Tokens[0] + (CellBreak + (Tokens[1] + (CellBreak + (Tokens[2]
    + (CellBreak + (Tokens[3] + (CellBreak + (Tokens[4] + (CellBreak + (Tokens[5]
    + (CellBreak + (Tokens[6] + (CellBreak + (Tokens[7] + (CellBreak + (Tokens[8]
    + (CellBreak + (Tokens[9] + RowEnd)))))))))))))))))))
  }

  /** `cuerpo` holds the ten tokens, once each and in replacement order. */
  lemma CuerpoTemplate()
    ensures RowCells == Tokens
    ensures Cuerpo() == Fill(RowPieces, RowCells)
  {
    CuerpoFill();
    RowCellsTokens();
  }

  /** Each interpolation of `cuerpo` is the token of its tag. */
  lemma RowCellsTokens()
    ensures RowCells == Tokens
  {
    TagToken(0); TagToken(1); TagToken(2); TagToken(3); TagToken(4);
    TagToken(5); TagToken(6); TagToken(7); TagToken(8); TagToken(9);
    assert RowCells[0] == Tokens[0] && RowCells[1] == Tokens[1] && RowCells[2] == Tokens[2];
    assert RowCells[3] == Tokens[3] && RowCells[4] == Tokens[4] && RowCells[5] == Tokens[5];
    assert RowCells[6] == Tokens[6] && RowCells[7] == Tokens[7] && RowCells[8] == Tokens[8];
    assert RowCells[9] == Tokens[9];
  }

  /** `cuerpo` is the row template with the tokens in its ten slots. */
  lemma CuerpoFill()
    ensures Cuerpo() == Fill(RowPieces, Tokens)
  {
    RowSpelled(Tokens);
  }

  /** The row template with ten given cells, written out piece by piece. */
  lemma RowSpelled(cells: seq<string>)
    requires |cells| == 10
    ensures Fill(RowPieces, cells)
         == RowStart + (cells[0] + (CellBreak + (cells[1] + (CellBreak + (cells[2]
            + (CellBreak + (cells[3] + (CellBreak + (cells[4] + (CellBreak + (cells[5]
            + (CellBreak + (cells[6] + (CellBreak + (cells[7] + (CellBreak + (cells[8]
            + (CellBreak + (cells[9] + RowEnd)))))))))))))))))))
  {
    RowPiecesSlots();
    TenSlots(RowPieces, RowStart, CellBreak, RowEnd, cells);
  }

  /** A template of ten slots whose inner pieces are all `sep`, written out. */
  lemma TenSlots(pieces: seq<string>, start: string, sep: string, end: string, cells: seq<string>)
    requires |pieces| == 11 && |cells| == 10
    requires pieces[0] == start && pieces[10] == end
    requires forall i :: 0 < i < 10 ==> pieces[i] == sep
    ensures Fill(pieces, cells)
         == start + (cells[0] + (sep + (cells[1] + (sep + (cells[2]
            + (sep + (cells[3] + (sep + (cells[4] + (sep + (cells[5]
            + (sep + (cells[6] + (sep + (cells[7] + (sep + (cells[8]
            + (sep + (cells[9] + end)))))))))))))))))))
  {
    assert Fill(pieces[10..], cells[10..]) == end;
    FillFrom(pieces, cells, 9);
    FillFrom(pieces, cells, 8);
    FillFrom(pieces, cells, 7);
    FillFrom(pieces, cells, 6);
    FillFrom(pieces, cells, 5);
    FillFrom(pieces, cells, 4);
    FillFrom(pieces, cells, 3);
    FillFrom(pieces, cells, 2);
    FillFrom(pieces, cells, 1);
    FillFrom(pieces, cells, 0);
    assert pieces[0..] == pieces && cells[0..] == cells;
  }

  /** Interpolating the tag of a key gives its token. */
  lemma TagToken(i: nat)
    requires i < |TagKeys|
    ensures ToString(TagValue(TagKeys[i])) == Tokens[i]
  {
    TagKeysTable();
  }

  /** The pieces of `cuerpo` border every token with '<' or '>' and contain no '#'. */
  lemma RowPiecesFrameTokens()
    ensures Frames(RowPieces, Tokens)
  {
    TokensWellFormed();
    RowPiecesShape();
    PieceChars();
    forall k | 0 <= k < |Tokens|
      ensures Separated(RowPieces, Tokens[k])
      ensures forall i :: 0 <= i < |RowPieces| ==> !Occurs(Tokens[k], RowPieces[i])
    {
      TokenChars(Tokens[k]);
      AbsentCharNoOccurrence(Tokens[k], RowStart, '#');
      AbsentCharNoOccurrence(Tokens[k], CellBreak, '#');
      AbsentCharNoOccurrence(Tokens[k], RowEnd, '#');
    }
  }

  /** The pieces of `cuerpo` are its start, nine cell breaks and its end. */
  lemma RowPiecesShape()
    ensures |RowPieces| == 11
    ensures forall i :: 0 <= i < |RowPieces| ==>
      RowPieces[i] == (if i == 0 then RowStart else if i == 10 then RowEnd else CellBreak)
  {
  }

  /** The pieces of `cuerpo`, in the form a ten-slot template is given. */
  lemma RowPiecesSlots()
    ensures |RowPieces| == 11 && RowPieces[0] == RowStart && RowPieces[10] == RowEnd
    ensures forall i :: 0 < i < 10 ==> RowPieces[i] == CellBreak
  {
    RowPiecesShape();
  }

  /** The cells of `cuerpo` open after a '>' and close before a '<', and no
      piece holds a '#'. */
  lemma PieceChars()
    ensures '#' !in RowStart && '#' !in CellBreak && '#' !in RowEnd
    ensures RowStart[|RowStart| - 1] == '>' && CellBreak[|CellBreak| - 1] == '>'
    ensures CellBreak[0] == '<' && RowEnd[0] == '<'
  {
    NoIdTag();
  }


  // ---------------------------------------------------------------------------
  // Person records and their rendered fields

  /** `data.fecha_nacimiento`; `anio` is the field `año`. */
  datatype Fecha = Fecha(dia: int, mes: int, anio: int)

  /** A person as fetched: `id` is `ref["@ref"].id`, the rest is `data`.
      `peso`, `altura` and `pesoEspada` are numbers already written as text. */
  datatype Persona = Persona(
    id: string,
    nombre: string,
    fechaNacimiento: Fecha,
    nacionalidad: string,
    peso: string,
    altura: string,
    participacionJJOO: seq<JsValue>,
    federado: JsValue,
    pesoEspada: string,
    sexo: string,
    victorias: int)

  /** The line break and four spaces that the two-line template literal puts
      after the first `/` of the birth date. */
  const DateBreak: string := "\n    "

  /** The birth date as `sustituyeTags` writes it: `dia + "/"`, the
      `DateBreak`, then `mes + "/" + año`. */
  function FechaText(f: Fecha): (r: string)
    ensures '#' !in r && '$' !in r
  {
    IntToString(f.dia) + "/" + DateBreak + IntToString(f.mes) + "/" + IntToString(f.anio)
  }

  /** Reads the three numbers' texts back out of a rendered birth date. */
  function FechaParts(r: string): (string, string, string)
  {
    var rest := After(r, '/');
    var mes := UpTo(rest, '/');
    (UpTo(r, '/'), if |mes| >= |DateBreak| then mes[|DateBreak|..] else mes, After(rest, '/'))
  }

  /** The rendered birth date gives back the day, month and year it was made from,
      so two different dates are never rendered alike. */
  lemma FechaTextReadBack(f: Fecha)
    ensures FechaParts(FechaText(f)) == (IntToString(f.dia), IntToString(f.mes), IntToString(f.anio))
  {
    var d, m, y := IntToString(f.dia), IntToString(f.mes), IntToString(f.anio);
    assert '/' !in d && '/' !in m;
    var rest := DateBreak + m + "/" + y;
    assert FechaText(f) == d + ['/'] + rest;
    SplitAtFirst(d, '/', rest);
    assert rest == (DateBreak + m) + ['/'] + y;
    SplitAtFirst(DateBreak + m, '/', y);
    assert (DateBreak + m)[|DateBreak|..] == m;
  }

  lemma FechaTextInjective(f: Fecha, g: Fecha)
    requires FechaText(f) == FechaText(g)
    ensures f == g
  {
    FechaTextReadBack(f);
    FechaTextReadBack(g);
    IntToStringInjective(f.dia, g.dia);
    IntToStringInjective(f.mes, g.mes);
    IntToStringInjective(f.anio, g.anio);
  }

  /** Each element's text followed by a space, in array order. */
  function Words(arr: seq<JsValue>): seq<string>
  {
    seq(|arr|, i requires 0 <= i < |arr| => ToString(arr[i]) + " ")
  }

  /** What `convertirParticipacion` returns. Every element's text, and the
      space after it, is in the result. */
  function ParticipacionText(arr: seq<JsValue>): (r: string)
    ensures forall i :: 0 <= i < |arr| ==> Occurs(ToString(arr[i]) + " ", r)
  {
    assert forall i :: 0 <= i < |arr| ==> Occurs(ToString(arr[i]) + " ", Concat(Words(arr))) by {
      forall i | 0 <= i < |arr|
        ensures Occurs(ToString(arr[i]) + " ", Concat(Words(arr)))
      {
        ConcatHas(Words(arr), i);
      }
    }
    Concat(Words(arr))
  }

  /** The text of a concatenation is the concatenation of the texts. */
  lemma ParticipacionAppend(a: seq<JsValue>, b: seq<JsValue>)
    ensures ParticipacionText(a + b) == ParticipacionText(a) + ParticipacionText(b)
  {
    assert Words(a + b) == Words(a) + Words(b);
    ConcatAppend(Words(a), Words(b));
  }

  /** Element `i` is written right after the elements before it, and right
      before those after it: the order is the array's, unsorted. */
  lemma ParticipacionAt(arr: seq<JsValue>, i: nat)
    requires i < |arr|
    ensures ParticipacionText(arr)
         == ParticipacionText(arr[..i]) + (ToString(arr[i]) + " ") + ParticipacionText(arr[i + 1..])
  {
    var ws := Words(arr);
    ConcatAt(ws, i);
    WordsSlices(arr, i);
    assert ws[i] == ToString(arr[i]) + " ";
  }

  /** The words before and after position `i` are those of the two slices. */
  lemma WordsSlices(arr: seq<JsValue>, i: nat)
    requires i < |arr|
    ensures Words(arr)[..i] == Words(arr[..i])
    ensures Words(arr)[i + 1..] == Words(arr[i + 1..])
  {
  }

  /** The elements' text lengths plus one space each, summed in array order. */
  function WordsLength(arr: seq<JsValue>): nat
    decreases |arr|
  {
    if arr == [] then 0 else WordsLength(arr[..|arr| - 1]) + |ToString(arr[|arr| - 1])| + 1
  }

  /** An empty array gives "", and the text is as long as the elements' texts
      with one space each. */
  lemma {:induction false} ParticipacionLength(arr: seq<JsValue>)
    ensures arr == [] ==> ParticipacionText(arr) == ""
    ensures |ParticipacionText(arr)| == WordsLength(arr)
    decreases |arr|
  {
    if arr != [] {
      var n := |arr| - 1;
      ParticipacionLength(arr[..n]);
      assert Words(arr)[..n] == Words(arr[..n]);
    }
  }

  /** `Plantilla.convertirParticipacion`: a `forEach` appending to a local string. */
  method ConvertirParticipacion(arr: seq<JsValue>) returns (participacion: string)
    ensures participacion == ParticipacionText(arr)
  {
    ghost var words := Words(arr);
    participacion := "";
    for i := 0 to |arr|
      invariant participacion == Concat(words[..i])
    {
      participacion := participacion + ToString(arr[i]) + " ";
      AppendAssoc(Concat(words[..i]), ToString(arr[i]), " ");
      ConcatSnoc(words, i);
    }
    ConcatAll(words);
  }

  /** The `FEDERADO` cell: strict comparison with `true`, so every other value
      (truthy ones included) is written "NO". */
  function FederadoText(v: JsValue): (r: string)
    ensures r == "SI" <==> v == Bool(true)
    ensures r != "SI" ==> r == "NO"
  {
    if v == Bool(true) then "SI" else "NO"
  }

  /** The ten replacement values, in replacement order. */
  function Fields(p: Persona): (r: seq<string>)
    ensures |r| == |Tokens|
  {
    [ p.nombre, FechaText(p.fechaNacimiento), p.nacionalidad, p.peso, p.altura,
      ParticipacionText(p.participacionJJOO), FederadoText(p.federado),
      p.pesoEspada, p.sexo, IntToString(p.victorias) ]
  }

  /** The record's texts hold no `$`, so `replace` inserts them literally. */
  predicate NoDollar(p: Persona)
  {
    && '$' !in p.nombre && '$' !in p.nacionalidad && '$' !in p.peso && '$' !in p.altura
    && '$' !in ParticipacionText(p.participacionJJOO)
    && '$' !in p.pesoEspada && '$' !in p.sexo
  }

  /** No token occurs in the record's texts (the module assumes, without
      checking, that no token occurs in the data). */
  ghost predicate TagFree(p: Persona)
  {
    && TokenFree(p.nombre) && TokenFree(p.nacionalidad) && TokenFree(p.peso)
    && TokenFree(p.altura) && TokenFree(ParticipacionText(p.participacionJJOO))
    && TokenFree(p.pesoEspada) && TokenFree(p.sexo)
  }

  /** The derived fields never contain a token, so a tag-free record has
      tag-free replacement values. */
  lemma FieldsTagFree(p: Persona)
    requires TagFree(p)
    ensures Disjoint(Tokens, Fields(p))
  {
    TokensDisjoint();
    HashFreeTokenFree(FechaText(p.fechaNacimiento));
    HashFreeTokenFree(FederadoText(p.federado));
    HashFreeTokenFree(IntToString(p.victorias));
    var fs := Fields(p);
    forall j | 0 <= j < |fs|
      ensures TokenFree(fs[j])
    {
      assert fs[j] in fs;
    }
  }

  // ---------------------------------------------------------------------------
  // Substitution

  /** `Plantilla.sustituyeTags(plantilla, persona)`: ten global replacements,
      in the order of the table. A template holding no token comes back as it was. */
  function SustituyeTags(plantilla: string, p: Persona): (r: string)
    requires NoDollar(p)
    ensures TokenFree(plantilla) ==> r == plantilla
  {
    TokensTable(Fields(p));
    assert TokenFree(plantilla) ==> ReplaceEach(plantilla, Tokens, Fields(p)) == plantilla by {
      if TokenFree(plantilla) {
        ReplaceEachAbsent(plantilla, Tokens, Fields(p));
      }
    }
    ReplaceEach(plantilla, Tokens, Fields(p))
  }

  /** `Plantilla.plantillaTablaPersonas.actualiza(persona)`. The row of every
      record opens with the template's `title` attribute, whose value is the
      literal text `undefined`: no substitution touches it. */
  function Actualiza(p: Persona): (r: string)
    requires NoDollar(p)
    ensures "\n    <tr title=\"undefined\">\n        <td>" <= r
  {
    OpeningKept(Cuerpo(), Fields(p));
    RowStartTitle();
    SustituyeTags(Cuerpo(), p)
  }

  /** `cuerpo` with its ten cells holding `cells` instead of the tokens. */
  function Row(cells: seq<string>): (r: string)
    requires |cells| == |RowPieces| - 1
  {
    Fill(RowPieces, cells)
  }

  /** Replacing the tokens of `cuerpo` by values that hold no token fills
      each cell with its value and keeps every other character of the template. */
  lemma CuerpoFilled(cells: seq<string>)
    requires Table(Tokens, cells) && Disjoint(Tokens, cells)
    ensures ReplaceEach(Cuerpo(), Tokens, cells) == Row(cells)
  {
    CuerpoTemplate();
    RowPiecesFrameTokens();
    FillPatterns(RowPieces, Tokens, cells);
  }

  /** The row of a tag-free record is `cuerpo` with each token's cell holding
      the record's value and every other character of the template kept. */
  lemma ActualizaFill(p: Persona)
    requires NoDollar(p) && TagFree(p)
    ensures Actualiza(p) == Row(Fields(p))
  {
    var fs := Fields(p);
    TokensTable(fs);
    assert Actualiza(p) == ReplaceEach(Cuerpo(), Tokens, fs);
    FieldsTagFree(p);
    CuerpoFilled(fs);
  }

  /** A template that starts with the opening text still does after the ten
      replacements, whatever the values. */
  lemma OpeningKept(t: string, reps: seq<string>)
    requires RowStart <= t && |reps| == |Tokens|
    ensures Table(Tokens, reps) && RowStart <= ReplaceEach(t, Tokens, reps)
  {
    var rest := t[|RowStart|..];
    PrefixRest(RowStart, t);
    RowStartKept(rest, reps);
    PrefixOfAppend(RowStart, ReplaceEach(rest, Tokens, reps));
  }

  /** The chain of replacements keeps the opening text in front, whatever follows it. */
  lemma RowStartKept(s: string, reps: seq<string>)
    requires |reps| == |Tokens|
    ensures Table(Tokens, reps)
    ensures ReplaceEach(RowStart + s, Tokens, reps) == RowStart + ReplaceEach(s, Tokens, reps)
  {
    RowStartFramesTokens();
    TokensTable(reps);
    ReplaceEachPrefix(RowStart, s, Tokens, reps);
  }

  /** No token occurs in the opening text, nor contains its last character. */
  lemma RowStartFramesTokens()
    ensures forall i :: 0 <= i < |Tokens| ==> !Occurs(Tokens[i], RowStart) && RowStart[|RowStart| - 1] !in Tokens[i]
  {
    TokensWellFormed();
    PieceChars();
    forall i | 0 <= i < |Tokens|
      ensures !Occurs(Tokens[i], RowStart) && RowStart[|RowStart| - 1] !in Tokens[i]
    {
      TokenChars(Tokens[i]);
      AbsentCharNoOccurrence(Tokens[i], RowStart, '#');
    }
  }

  /** Every filled row starts with the template's opening text. */
  lemma RowOpens(cells: seq<string>)
    requires |cells| == |RowPieces| - 1
    ensures RowStart <= Row(cells)
  {
    RowPiecesShape();
    FillFrom(RowPieces, cells, 0);
    assert RowPieces[0..] == RowPieces && cells[0..] == cells;
  }

  /** The opening text interpolates the missing `ID` tag as `undefined`. */
  lemma RowStartTitle()
    ensures RowStart == "\n    <tr title=\"undefined\">\n        <td>"
  {
    NoIdTag();
  }

  /** The birth date's text shows the day, the month and the year. */
  lemma FechaTextShows(f: Fecha)
    ensures Occurs(IntToString(f.dia), FechaText(f))
    ensures Occurs(IntToString(f.mes), FechaText(f))
    ensures Occurs(IntToString(f.anio), FechaText(f))
  {
    var d, m, y := IntToString(f.dia), IntToString(f.mes), IntToString(f.anio);
    var head := d + "/" + DateBreak;
    OccursSelf(d);
    OccursBefore(d, d, "/");
    OccursBefore(d, d + "/", DateBreak);
    OccursBefore(d, head, m);
    OccursBefore(d, head + m, "/");
    OccursBefore(d, head + m + "/", y);
    OccursSelf(m);
    OccursAfter(m, head, m);
    OccursBefore(m, head + m, "/");
    OccursBefore(m, head + m + "/", y);
    OccursSelf(y);
    OccursAfter(y, head + m + "/", y);
  }

  /** The row shows the record's name, birth date (day, month and year),
      nationality, weight, height, Olympic years, federation flag, sword
      weight, sex and victories. */
  lemma ActualizaShowsFields(p: Persona)
    requires NoDollar(p) && TagFree(p)
    ensures forall j :: 0 <= j < |Fields(p)| ==> Occurs(Fields(p)[j], Actualiza(p))
    ensures Occurs(IntToString(p.fechaNacimiento.dia), Actualiza(p))
    ensures Occurs(IntToString(p.fechaNacimiento.mes), Actualiza(p))
    ensures Occurs(IntToString(p.fechaNacimiento.anio), Actualiza(p))
  {
    var fs := Fields(p);
    var row := Actualiza(p);
    ActualizaFill(p);
    forall j | 0 <= j < |fs|
      ensures Occurs(fs[j], row)
    {
      FillHasSlot(RowPieces, fs, j);
    }
    var f := p.fechaNacimiento;
    FechaTextShows(f);
    assert fs[1] == FechaText(f);
    OccursTransitive(IntToString(f.dia), fs[1], row);
    OccursTransitive(IntToString(f.mes), fs[1], row);
    OccursTransitive(IntToString(f.anio), fs[1], row);
  }

  /** A row filled with a tag-free record's values is left as it is by a
      second substitution of that record. */
  lemma RowStable(p: Persona)
    requires NoDollar(p) && TagFree(p)
    ensures SustituyeTags(Row(Fields(p)), p) == Row(Fields(p))
  {
    TokensWellFormed();
    RowPiecesFrameTokens();
    FieldsTagFree(p);
    FillReplacementsStable(RowPieces, Tokens, Fields(p));
  }

  /** Substituting again into a rendered row changes nothing. */
  lemma ActualizaStable(p: Persona)
    requires NoDollar(p) && TagFree(p)
    ensures SustituyeTags(Actualiza(p), p) == Actualiza(p)
  {
    ActualizaFill(p);
    RowStable(p);
  }

  // ---------------------------------------------------------------------------
  // Listing

  /** The row of each person, in vector order. */
  function RowTexts(v: seq<Persona>): seq<string>
    requires forall i :: 0 <= i < |v| ==> NoDollar(v[i])
  {
    seq(|v|, i requires 0 <= i < |v| => Actualiza(v[i]))
  }

  /** The body `imprime` writes: header, rows, footer. */
  function Listado(v: seq<Persona>): (r: string)
    requires forall i :: 0 <= i < |v| ==> NoDollar(v[i])
    ensures forall i :: 0 <= i < |v| ==> Occurs(Actualiza(v[i]), r)
  {
    var rows := RowTexts(v);
    assert forall i :: 0 <= i < |v| ==> Occurs(Actualiza(v[i]), Cabecera + Concat(rows) + Pie) by {
      forall i | 0 <= i < |v|
        ensures Occurs(Actualiza(v[i]), Cabecera + Concat(rows) + Pie)
      {
        ConcatHas(rows, i);
        OccursInContext(rows[i], Concat(rows), Cabecera, Pie);
      }
    }
    Cabecera + Concat(rows) + Pie
  }

  /** An empty vector gives exactly the header and the footer. */
  lemma ListadoEmpty()
    ensures Listado([]) == Cabecera + Pie
  {
    assert RowTexts([]) == [];
    AppendEmpty(Cabecera);
  }

  /** Person `i`'s row sits between the header and the rows of the persons
      before it, and the rows of those after it and the footer. */
  lemma ListadoAt(v: seq<Persona>, i: nat)
    requires forall k :: 0 <= k < |v| ==> NoDollar(v[k])
    requires i < |v|
    ensures Listado(v)
         == Cabecera + (Concat(RowTexts(v)[..i]) + Actualiza(v[i]) + Concat(RowTexts(v)[i + 1..])) + Pie
  {
    ConcatAt(RowTexts(v), i);
  }

  /** The listing shows the name of every tag-free person. */
  lemma ListadoShowsName(v: seq<Persona>, i: nat)
    requires forall k :: 0 <= k < |v| ==> NoDollar(v[k])
    requires i < |v| && TagFree(v[i])
    ensures Occurs(v[i].nombre, Listado(v))
  {
    ActualizaShowsFields(v[i]);
    assert Fields(v[i])[0] == v[i].nombre;
    OccursTransitive(v[i].nombre, Actualiza(v[i]), Listado(v));
  }

  /** `Plantilla.imprime(vector)`: a `forEach` appending each row to a local string. */
  method Imprime(vector: seq<Persona>) returns (u: ArticleUpdate)
    requires forall i :: 0 <= i < |vector| ==> NoDollar(vector[i])
    ensures u == ArticleUpdate("Listado de nombres", Str(Listado(vector)))
  {
    ghost var rows := RowTexts(vector);
    var msj := "";
    msj := msj + Cabecera;
    for i := 0 to |vector|
      invariant msj == Cabecera + Concat(rows[..i])
    {
      msj := msj + Actualiza(vector[i]);
      ConcatExtend(Cabecera, rows, i);
    }
    ConcatAll(rows);
    msj := msj + Pie;
    u := ArticleUpdate("Listado de nombres", Str(msj));
  }

  // ---------------------------------------------------------------------------
  // The home and about views

  const NullMensaje: string := "Datos Descargados No válidos"

  /** `Plantilla.datosDescargadosNulos`. */
  const DatosDescargadosNulos: JsValue := Obj(map[
    "mensaje" := Str(NullMensaje),
    "autor" := Str(""),
    "email" := Str(""),
    "fecha" := Str("")
  ])

  /** The sentinel is an object holding the error message and three empty fields. */
  lemma NullDatos()
    ensures DatosDescargadosNulos.Obj?
    ensures Field(DatosDescargadosNulos, "mensaje") == Str(NullMensaje)
    ensures Field(DatosDescargadosNulos, "autor") == Str("")
    ensures Field(DatosDescargadosNulos, "email") == Str("")
    ensures Field(DatosDescargadosNulos, "fecha") == Str("")
  {
  }

  /** What both views do first: a falsy value, then a value that is not an
      object, is replaced by the sentinel. */
  function AsObject(datos: JsValue): (r: JsValue)
    ensures r.Obj?
    ensures r == datos || r == DatosDescargadosNulos
    ensures r == datos <==> datos.Obj?
  {
    var d := if Truthy(datos) then datos else DatosDescargadosNulos;
    if TypeOf(d) != "object" then DatosDescargadosNulos else d
  }

  /** `datos` is an object whose property `key` is defined. */
  predicate Defines(datos: JsValue, key: string)
  {
    datos.Obj? && Field(datos, key) != Undefined
  }

  /** The answer the about view keeps: all four of its fields are defined. */
  predicate AboutComplete(datos: JsValue)
  {
    Defines(datos, "mensaje") && Defines(datos, "autor") && Defines(datos, "email") && Defines(datos, "fecha")
  }

  /** `Plantilla.mostrarHome(datosDescargados)`. */
  function MostrarHome(datos: JsValue): (u: ArticleUpdate)
    ensures u.title == "Plantilla Home"
    ensures Defines(datos, "mensaje") ==> u.content == Field(datos, "mensaje")
    ensures !Defines(datos, "mensaje") ==> u.content == Str(NullMensaje)
    ensures u.content != Undefined
  {
    var d := AsObject(datos);
    NullDatos();
    var d' := if TypeOf(Field(d, "mensaje")) == "undefined" then DatosDescargadosNulos else d;
    ArticleUpdate("Plantilla Home", Field(d', "mensaje"))
  }

  /** The fixed text of the about template, around and between its four fields. */
  const AboutPieces: seq<string> := [
    "<div>\n    <p>",
    "</p>\n    <ul>\n        <li><b>Autor/a</b>: ",
    "</li>\n        <li><b>E-mail</b>: ",
    "</li>\n        <li><b>Fecha</b>: ",
    "</li>\n    </ul>\n    </div>\n    "
  ]

  /** The body of the about view: the template literal over the message,
      author, e-mail and date of `datos`. */
  function AcercaDeHtml(datos: JsValue): (r: string)
    requires datos.Obj?
    ensures Occurs(ToString(Field(datos, "mensaje")), r)
    ensures Occurs(ToString(Field(datos, "autor")), r)
    ensures Occurs(ToString(Field(datos, "email")), r)
    ensures Occurs(ToString(Field(datos, "fecha")), r)
  {
    var ss := [ToString(Field(datos, "mensaje")), ToString(Field(datos, "autor")),
               ToString(Field(datos, "email")), ToString(Field(datos, "fecha"))];
    FillHasSlot(AboutPieces, ss, 0);
    FillHasSlot(AboutPieces, ss, 1);
    FillHasSlot(AboutPieces, ss, 2);
    FillHasSlot(AboutPieces, ss, 3);
    Fill(AboutPieces, ss)
  }

  /** The fallback about body holds the error message and three empty fields. */
  lemma AcercaDeNulos()
    ensures AcercaDeHtml(DatosDescargadosNulos) == Fill(AboutPieces, [NullMensaje, "", "", ""])
  {
    NullDatos();
  }

  /** `Plantilla.mostrarAcercaDe(datosDescargados)`. */
  function MostrarAcercaDe(datos: JsValue): (u: ArticleUpdate)
    ensures u.title == "Plantilla Acerca de"
    ensures AboutComplete(datos) ==> u.content == Str(AcercaDeHtml(datos))
    ensures !AboutComplete(datos) ==> u.content == Str(AcercaDeHtml(DatosDescargadosNulos))
  {
    var d := AsObject(datos);
    NullDatos();
    var d' :=
      if TypeOf(Field(d, "mensaje")) == "undefined"
         || TypeOf(Field(d, "autor")) == "undefined"
         || TypeOf(Field(d, "email")) == "undefined"
         || TypeOf(Field(d, "fecha")) == "undefined"
      then DatosDescargadosNulos else d;
    ArticleUpdate("Plantilla Acerca de",
      Str(AcercaDeHtml(d')))
  }

  // ---------------------------------------------------------------------------
  // The views as the page calls them

  /** What a view does when reached through `procesarHome`/`procesarAcercaDe`:
      `descargarRuta` calls the callback as a plain function, so in strict mode
      `this` is `undefined` and reading `this.datosDescargadosNulos` throws. */
  datatype Outcome = Shown(update: ArticleUpdate) | TypeError

  /** `mostrarHome` with `this` undefined: each fallback step throws instead
      of reading the sentinel. */
  function MostrarHomeUnbound(datos: JsValue): (o: Outcome)
    ensures o.Shown? ==> o.update.title == "Plantilla Home"
  {
    if !Truthy(datos) then TypeError
    else if TypeOf(datos) != "object" then TypeError
    else
      if TypeOf(Field(datos, "mensaje")) == "undefined" then TypeError
      else Shown(ArticleUpdate("Plantilla Home", Field(datos, "mensaje")))
  }

  /** Unbound, the home view fails exactly when the bound view would fall back
      to the sentinel, and otherwise shows what the bound view shows. */
  lemma HomeUnboundFails(datos: JsValue)
    ensures MostrarHomeUnbound(datos) == TypeError <==> !Defines(datos, "mensaje")
    ensures Defines(datos, "mensaje") ==> MostrarHomeUnbound(datos) == Shown(MostrarHome(datos))
  {
  }

  /** An empty answer: the bound view shows the sentinel's message, the
      unbound one throws. */
  lemma HomeUnboundEmpty()
    ensures MostrarHome(Obj(map[])).content == Str(NullMensaje)
    ensures MostrarHomeUnbound(Obj(map[])) == TypeError
  {
    HomeUnboundFails(Obj(map[]));
  }

  /** `mostrarAcercaDe` with `this` undefined. */
  function MostrarAcercaDeUnbound(datos: JsValue): (o: Outcome)
    ensures o.Shown? ==> o.update.title == "Plantilla Acerca de"
  {
    if !Truthy(datos) then TypeError
    else if TypeOf(datos) != "object" then TypeError
    else
      if TypeOf(Field(datos, "mensaje")) == "undefined"
         || TypeOf(Field(datos, "autor")) == "undefined"
         || TypeOf(Field(datos, "email")) == "undefined"
         || TypeOf(Field(datos, "fecha")) == "undefined"
      then TypeError
      else Shown(ArticleUpdate("Plantilla Acerca de", Str(AcercaDeHtml(datos))))
  }

  /** Unbound, the about view fails exactly when the bound view would fall
      back to the sentinel, and otherwise shows what the bound view shows. */
  lemma AcercaDeUnboundFails(datos: JsValue)
    ensures MostrarAcercaDeUnbound(datos) == TypeError <==> !AboutComplete(datos)
    ensures AboutComplete(datos) ==> MostrarAcercaDeUnbound(datos) == Shown(MostrarAcercaDe(datos))
  {
  }

  /** An answer without a date: the bound view shows the sentinel, the
      unbound one throws. */
  lemma AcercaDeUnboundNoDate()
    ensures MostrarAcercaDe(Obj(map["mensaje" := Str("m"), "autor" := Str("a"), "email" := Str("e")])).content
         == Str(AcercaDeHtml(DatosDescargadosNulos))
    ensures MostrarAcercaDeUnbound(Obj(map["mensaje" := Str("m"), "autor" := Str("a"), "email" := Str("e")])) == TypeError
  {
    AcercaDeUnboundFails(Obj(map["mensaje" := Str("m"), "autor" := Str("a"), "email" := Str("e")]));
  }
}
